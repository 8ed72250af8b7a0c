/** A timer that runs tasks in one background thread, a fixed time after each was scheduled. */
module Timer {
  import opened Wrappers

  /** id: the position in the order of scheduling; start: the clock when it was scheduled. */
  datatype Task = Task(id: nat, start: real)

  /** What the background thread does. Measured: it read the clock and is about to wait, still holding the
      lock. late: the time that went by between the two. A waiting thread that was notified is back at
      Awake. */
  datatype Worker =
    | NotStarted
    | Awake
    | WaitingForTask
    | Measured(sleep: real, at: real)
    | WaitingUntil(time: real, late: real)
    | RunningTask(id: nat)

  datatype Popped = Popped(task: Task, at: real)

  /** The pending tasks in insertion order, the clock and the thread; and every task ever scheduled, the
      ones cancelled while they were pending, and the ones popped. */
  datatype State = State(
    tasks: seq<Task>, now: real, worker: Worker, scheduled: seq<Task>, cancelled: set<nat>, popped: seq<Popped>)

  datatype Action =
    | Start
    | Schedule
    | Cancel(id: nat)
    | Tick(elapsed: real)
    | Iterate
    | BeginWait
    | WaitOver
    | TaskDone

  function Notified(w: Worker): Worker {
    if w.WaitingForTask? || w.WaitingUntil? then Awake else w
  }

  function Ids(tasks: seq<Task>): set<nat> {
    set t | t in tasks :: t.id
  }

  function PoppedIds(popped: seq<Popped>): set<nat> {
    set p | p in popped :: p.task.id
  }

  function Without(tasks: seq<Task>, id: nat): seq<Task> {
    if tasks == [] then [] else
    (if tasks[0].id == id then [] else [tasks[0]]) + Without(tasks[1..], id)
  }

  /** One turn of the thread's loop: up to where it waits for a task, is about to wait for a deadline, or
      gives the lock back with a job. */
  function Turn(timeout: real, s: State): State
    requires s.worker.Awake?
  {
    if s.tasks == [] then s.(worker := WaitingForTask)
    else
      var first := s.tasks[0];
      var sleep := first.start + timeout - s.now;
      if sleep > 0.0 then s.(worker := Measured(sleep, s.now))
      else s.(tasks := s.tasks[1..], worker := RunningTask(first.id), popped := s.popped + [Popped(first, s.now)])
  }

  /** The effect of an action; one that cannot happen in this state changes nothing. Scheduling a task starts
      the thread first, and then, like cancelling, needs the lock. */
  function Step(timeout: real, s: State, a: Action): State {
    match a
    case Start => if s.worker.NotStarted? then s.(worker := Awake) else s
    case Schedule =>
      if s.worker.Measured? || s.worker.NotStarted? then s else
      var task := Task(|s.scheduled|, s.now);
      s.(tasks := s.tasks + [task], scheduled := s.scheduled + [task],
         worker := Notified(s.worker))
    case Cancel(id) =>
      if s.worker.Measured? then s else
      s.(tasks := Without(s.tasks, id), worker := Notified(s.worker),
         cancelled := if id in Ids(s.tasks) then s.cancelled + {id} else s.cancelled)
    case Tick(elapsed) => if elapsed < 0.0 then s else s.(now := s.now + elapsed)
    case Iterate => if s.worker.Awake? then Turn(timeout, s) else s
    case BeginWait =>
      if s.worker.Measured? then s.(worker := WaitingUntil(s.now + s.worker.sleep, s.now - s.worker.at)) else s
    case WaitOver => if s.worker.WaitingUntil? && s.worker.time <= s.now then s.(worker := Awake) else s
    case TaskDone => if s.worker.RunningTask? then s.(worker := Awake) else s
  }

  function Run(timeout: real, s: State, actions: seq<Action>): State
    decreases |actions|
  {
    if actions == [] then s else Run(timeout, Step(timeout, s, actions[0]), actions[1..])
  }

  function Initial(now: real): State {
    State([], now, NotStarted, [], {}, [])
  }

  // ----- what always holds -----

  predicate Ascending(tasks: seq<Task>) {
    forall i, j | 0 <= i < j < |tasks| :: tasks[i].id < tasks[j].id
  }

  /** Tasks are numbered as they were scheduled, by a clock that never goes back. */
  predicate Numbered(s: State) {
    && (forall i | 0 <= i < |s.scheduled| :: s.scheduled[i].id == i && s.scheduled[i].start <= s.now)
    && (forall i, j | 0 <= i < j < |s.scheduled| :: s.scheduled[i].start <= s.scheduled[j].start)
  }

  predicate WasScheduled(s: State, t: Task) {
    t.id < |s.scheduled| && s.scheduled[t.id] == t
  }

  /** Pending tasks are in the order in which they were scheduled. */
  predicate PendingInOrder(s: State) {
    Ascending(s.tasks) && forall t | t in s.tasks :: WasScheduled(s, t)
  }

  /** Tasks were popped in the order of scheduling, before all that are pending, and none too early. */
  predicate PoppedInOrder(timeout: real, s: State) {
    && (forall p | p in s.popped :: WasScheduled(s, p.task) && p.at >= p.task.start + timeout)
    && (forall i, j | 0 <= i < j < |s.popped| :: s.popped[i].task.id < s.popped[j].task.id)
    && (forall p, t | p in s.popped && t in s.tasks :: p.task.id < t.id)
  }

  /** Every task is exactly one of pending, cancelled and popped. */
  ghost predicate Partitioned(s: State) {
    var pending, popped := Ids(s.tasks), PoppedIds(s.popped);
    && pending + s.cancelled + popped == Ids(s.scheduled)
    && pending !! s.cancelled && s.cancelled !! popped && pending !! popped
  }

  /** The thread never waits without end while a task is pending. It waits until the first deadline, and
      longer only by the time that went by before it began to wait. */
  predicate WaitsNoLonger(timeout: real, s: State) {
    match s.worker
    case NotStarted => s.tasks == []
    case WaitingForTask => s.tasks == []
    case Measured(sleep, at) => s.tasks != [] && at <= s.now && at + sleep == s.tasks[0].start + timeout
    case WaitingUntil(time, late) => s.tasks != [] && late >= 0.0 && time == s.tasks[0].start + timeout + late
    case _ => true
  }

  ghost predicate Inv(timeout: real, s: State) {
    Numbered(s) && PendingInOrder(s) && PoppedInOrder(timeout, s) && Partitioned(s) && WaitsNoLonger(timeout, s)
  }

  /** The deadlines of pending tasks are in order, too. */
  lemma DeadlinesInOrder(timeout: real, s: State, i: nat, j: nat)
    requires Inv(timeout, s) && i < j < |s.tasks|
    ensures s.tasks[i].start + timeout <= s.tasks[j].start + timeout
  {
    assert WasScheduled(s, s.tasks[i]) && WasScheduled(s, s.tasks[j]);
  }

  lemma {:induction false} WithoutIsRest(tasks: seq<Task>, id: nat)
    ensures forall t :: t in Without(tasks, id) <==> t in tasks && t.id != id
    ensures Ids(Without(tasks, id)) == Ids(tasks) - {id}
  {
    if tasks == [] {
    } else {
      assert forall t :: t in tasks <==> t == tasks[0] || t in tasks[1..];
      WithoutIsRest(tasks[1..], id);
    }
  }

  lemma {:induction false} WithoutAscends(tasks: seq<Task>, id: nat)
    requires Ascending(tasks)
    ensures Ascending(Without(tasks, id))
  {
    if tasks == [] {
    } else {
      WithoutAscends(tasks[1..], id);
      WithoutIsRest(tasks[1..], id);
      forall t | t in tasks[1..]
        ensures tasks[0].id < t.id
      {
      }
    }
  }

  lemma IdsWithLast(tasks: seq<Task>, t: Task)
    ensures Ids(tasks + [t]) == Ids(tasks) + {t.id}
  {
    assert forall u :: u in tasks + [t] <==> u in tasks || u == t;
  }

  lemma IdsWithoutFirst(tasks: seq<Task>)
    requires tasks != [] && Ascending(tasks)
    ensures Ids(tasks[1..]) == Ids(tasks) - {tasks[0].id} && tasks[0].id in Ids(tasks)
    ensures Ascending(tasks[1..]) && forall t | t in tasks[1..] :: t in tasks && tasks[0].id < t.id
  {
    assert forall t :: t in tasks <==> t == tasks[0] || t in tasks[1..];
    forall t | t in tasks[1..]
      ensures tasks[0].id < t.id
    {
      var i :| 0 <= i < |tasks[1..]| && tasks[1..][i] == t;
      assert tasks[i + 1] == t;
    }
  }

  lemma PoppedIdsWithLast(popped: seq<Popped>, p: Popped)
    ensures PoppedIds(popped + [p]) == PoppedIds(popped) + {p.task.id}
  {
    assert forall q :: q in popped + [p] <==> q in popped || q == p;
  }

  lemma ScheduleKeepsOrder(timeout: real, s: State)
    requires Inv(timeout, s) && !s.worker.Measured? && !s.worker.NotStarted?
    ensures var s' := Step(timeout, s, Schedule);
            Numbered(s') && PendingInOrder(s') && PoppedInOrder(timeout, s') && WaitsNoLonger(timeout, s')
  {
    var s', task := Step(timeout, s, Schedule), Task(|s.scheduled|, s.now);
    forall t | WasScheduled(s, t)
      ensures WasScheduled(s', t) && t.id < task.id
    {
    }
    assert forall t :: t in s'.tasks <==> t in s.tasks || t == task;
  }

  lemma ScheduleKeepsInv(timeout: real, s: State)
    requires Inv(timeout, s) && !s.worker.Measured? && !s.worker.NotStarted?
    ensures Inv(timeout, Step(timeout, s, Schedule))
  {
    var task := Task(|s.scheduled|, s.now);
    ScheduleKeepsOrder(timeout, s);
    IdsWithLast(s.tasks, task);
    IdsWithLast(s.scheduled, task);
    assert task.id !in Ids(s.scheduled);
  }

  lemma {:induction false} CancelKeepsOrder(timeout: real, s: State, id: nat)
    requires Inv(timeout, s) && !s.worker.Measured?
    ensures var s' := Step(timeout, s, Cancel(id));
            Numbered(s') && PendingInOrder(s') && PoppedInOrder(timeout, s') && WaitsNoLonger(timeout, s')
  {
    WithoutIsRest(s.tasks, id);
    WithoutAscends(s.tasks, id);
    if s.tasks == [] {
      assert Without(s.tasks, id) == [];
    }
  }

  lemma {:induction false} CancelKeepsInv(timeout: real, s: State, id: nat)
    requires Inv(timeout, s) && !s.worker.Measured?
    ensures Inv(timeout, Step(timeout, s, Cancel(id)))
  {
    CancelKeepsOrder(timeout, s, id);
    WithoutIsRest(s.tasks, id);
    if id !in Ids(s.tasks) {
      assert Ids(s.tasks) - {id} == Ids(s.tasks);
    }
  }

  lemma PopKeepsOrder(timeout: real, s: State)
    requires Inv(timeout, s) && s.worker.Awake? && s.tasks != [] && s.tasks[0].start + timeout <= s.now
    ensures var s' := Turn(timeout, s); PendingInOrder(s') && PoppedInOrder(timeout, s')
  {
    var s', first := Turn(timeout, s), s.tasks[0];
    IdsWithoutFirst(s.tasks);
    assert first in s.tasks;
    forall p | p in s'.popped
      ensures WasScheduled(s', p.task) && p.at >= p.task.start + timeout
      ensures forall t | t in s'.tasks :: p.task.id < t.id
    {
      assert p in s.popped || p == Popped(first, s.now);
    }
    forall i, j | 0 <= i < j < |s'.popped|
      ensures s'.popped[i].task.id < s'.popped[j].task.id
    {
      assert s'.popped[i] == s.popped[i] && s.popped[i] in s.popped;
    }
  }

  lemma FirstPopped(timeout: real, s: State)
    requires Inv(timeout, s) && s.worker.Awake? && s.tasks != [] && s.tasks[0].start + timeout <= s.now
    ensures Inv(timeout, Turn(timeout, s))
  {
    PopKeepsOrder(timeout, s);
    IdsWithoutFirst(s.tasks);
    PoppedIdsWithLast(s.popped, Popped(s.tasks[0], s.now));
  }

  lemma IterateKeepsInv(timeout: real, s: State)
    requires Inv(timeout, s)
    ensures Inv(timeout, Step(timeout, s, Iterate))
  {
    if s.worker.Awake? && s.tasks != [] && s.tasks[0].start + timeout <= s.now {
      FirstPopped(timeout, s);
    }
  }

  lemma StepKeepsInv(timeout: real, s: State, a: Action)
    requires Inv(timeout, s)
    ensures Inv(timeout, Step(timeout, s, a))
  {
    match a
    case Schedule => if !s.worker.Measured? && !s.worker.NotStarted? { ScheduleKeepsInv(timeout, s); }
    case Cancel(id) => if !s.worker.Measured? { CancelKeepsInv(timeout, s, id); }
    case Iterate => IterateKeepsInv(timeout, s);
    case _ =>
  }

  /** All of it holds however schedules, cancels, the clock and the thread interleave. */
  lemma {:induction false} RunKeepsInv(timeout: real, s: State, actions: seq<Action>)
    requires Inv(timeout, s)
    ensures Inv(timeout, Run(timeout, s, actions))
    decreases |actions|
  {
    if actions == [] {
    } else {
      StepKeepsInv(timeout, s, actions[0]);
      RunKeepsInv(timeout, Step(timeout, s, actions[0]), actions[1..]);
    }
  }

  lemma {:induction false} CancelledStaysCancelled(timeout: real, s: State, id: nat, actions: seq<Action>)
    requires id in s.cancelled
    ensures id in Run(timeout, s, actions).cancelled
    decreases |actions|
  {
    if actions == [] {
    } else {
      CancelledStaysCancelled(timeout, Step(timeout, s, actions[0]), id, actions[1..]);
    }
  }

  /** A task that is cancelled while it is pending never runs. */
  lemma CancelledNeverRuns(timeout: real, start: real, before: seq<Action>, id: nat, after: seq<Action>)
    requires var s := Run(timeout, Initial(start), before); id in Ids(s.tasks) && !s.worker.Measured?
    ensures var s := Step(timeout, Run(timeout, Initial(start), before), Cancel(id));
            id !in PoppedIds(Run(timeout, s, after).popped)
  {
    var s0 := Run(timeout, Initial(start), before);
    var s := Step(timeout, s0, Cancel(id));
    RunKeepsInv(timeout, Initial(start), before);
    StepKeepsInv(timeout, s0, Cancel(id));
    RunKeepsInv(timeout, s, after);
    CancelledStaysCancelled(timeout, s, id, after);
  }

  /** How long the thread will go on waiting past the first deadline. */
  function Lateness(w: Worker): real {
    if w.WaitingUntil? then w.late else 0.0
  }

  /** No wake-up is lost: once the first task is due, and a wait that began late has had that much longer, a
      thread that is not busy pops it with its next turn. */
  lemma DueTaskIsPopped(timeout: real, start: real, actions: seq<Action>)
    ensures var s := Run(timeout, Initial(start), actions);
            && s.tasks != [] && s.tasks[0].start + timeout + Lateness(s.worker) <= s.now
            && !s.worker.RunningTask? && !s.worker.Measured? ==>
              var s' := Step(timeout, Step(timeout, s, WaitOver), Iterate);
              s'.popped == s.popped + [Popped(s.tasks[0], s.now)] && s'.worker == RunningTask(s.tasks[0].id)
    ensures var s := Run(timeout, Initial(start), actions);
            s.worker.Measured? ==>
              var late := s.now - s.worker.at;
              s.tasks != [] &&
              Step(timeout, s, BeginWait).worker == WaitingUntil(s.tasks[0].start + timeout + late, late)
  {
    RunKeepsInv(timeout, Initial(start), actions);
  }

  /** When the thread will be awake again, if it is not running a job: the end of its wait, or the first
      deadline. */
  function AwakeAt(timeout: real, s: State): real
    requires s.tasks != []
  {
    match s.worker
    case WaitingUntil(time, _) => time
    case Measured(sleep, _) => s.now + sleep
    case _ => s.tasks[0].start + timeout
  }

  /** What it takes for the first task to be popped: the thread begins its wait, time goes by, the wait is over
      or the job that it runs is done, and it takes a turn. */
  function UntilPopped(timeout: real, s: State): seq<Action>
    requires s.tasks != []
  {
    var late := AwakeAt(timeout, s) - s.now;
    [BeginWait, Tick(if late > 0.0 then late else 0.0), WaitOver, TaskDone, Iterate]
  }

  lemma {:induction false} RunFive(timeout: real, s: State, actions: seq<Action>)
    requires |actions| == 5
    ensures var s2 := Step(timeout, Step(timeout, s, actions[0]), actions[1]);
            Run(timeout, s, actions) ==
            Step(timeout, Step(timeout, Step(timeout, s2, actions[2]), actions[3]), actions[4])
  {
    var s1 := Step(timeout, s, actions[0]);
    var s2 := Step(timeout, s1, actions[1]);
    var s3 := Step(timeout, s2, actions[2]);
    var s4 := Step(timeout, s3, actions[3]);
    var s5 := Step(timeout, s4, actions[4]);
    assert actions[1..][1..] == actions[2..] && actions[2..][1..] == actions[3..] && actions[3..][1..] == actions[4..];
    assert actions[4..][1..] == [];
    assert Run(timeout, s4, actions[4..]) == Run(timeout, s5, []) == s5;
    assert Run(timeout, s3, actions[3..]) == s5;
    assert Run(timeout, s2, actions[2..]) == s5;
    assert Run(timeout, s1, actions[1..]) == s5;
  }

  /** Whatever the thread is doing, also a job that then ends, it goes on to pop the first task. */
  lemma FirstIsPopped(timeout: real, s: State)
    requires Inv(timeout, s) && s.tasks != []
    ensures var s' := Run(timeout, s, UntilPopped(timeout, s));
            && s'.tasks == s.tasks[1..] && s'.worker == RunningTask(s.tasks[0].id)
            && s'.popped == s.popped + [Popped(s.tasks[0], s'.now)]
  {
    RunFive(timeout, s, UntilPopped(timeout, s));
  }

  /** Every task that is pending is run some time, if it is not cancelled and jobs end. */
  lemma {:induction false} PendingTasksRun(timeout: real, s: State, t: Task) returns (more: seq<Action>)
    requires Inv(timeout, s) && t in s.tasks
    ensures forall a :: a in more ==> !a.Schedule? && !a.Cancel?
    ensures t.id in PoppedIds(Run(timeout, s, more).popped)
    decreases |s.tasks|
  {
    var first := UntilPopped(timeout, s);
    var s' := Run(timeout, s, first);
    FirstIsPopped(timeout, s);
    if t == s.tasks[0] {
      more := first;
      PoppedIdsWithLast(s.popped, Popped(t, s'.now));
    } else {
      RunKeepsInv(timeout, s, first);
      var rest := PendingTasksRun(timeout, s', t);
      more := first + rest;
      RunConcat(timeout, s, first, rest);
    }
  }

  lemma {:induction false} RunConcat(timeout: real, s: State, first: seq<Action>, second: seq<Action>)
    ensures Run(timeout, s, first + second) == Run(timeout, Run(timeout, s, first), second)
    decreases |first|
  {
    if first == [] {
      assert first + second == second;
    } else {
      assert (first + second)[1..] == first[1..] + second;
      RunConcat(timeout, Step(timeout, s, first[0]), first[1..], second);
    }
  }

  /** In particular, a task that has been scheduled, from any state that the timer may be in. */
  lemma ScheduledTasksRun(timeout: real, start: real, actions: seq<Action>) returns (more: seq<Action>)
    requires var s := Run(timeout, Initial(start), actions); !s.worker.Measured? && !s.worker.NotStarted?
    ensures var s := Run(timeout, Initial(start), actions);
            && (forall a :: a in more ==> !a.Schedule? && !a.Cancel?)
            && |s.scheduled| in PoppedIds(Run(timeout, Step(timeout, s, Schedule), more).popped)
  {
    var s := Run(timeout, Initial(start), actions);
    RunKeepsInv(timeout, Initial(start), actions);
    StepKeepsInv(timeout, s, Schedule);
    more := PendingTasksRun(timeout, Step(timeout, s, Schedule), Task(|s.scheduled|, s.now));
  }

  /** The first task is the next that is due. */
  lemma FirstIsNext(timeout: real, s: State, t: Task)
    requires Inv(timeout, s) && t in s.tasks
    ensures s.tasks[0].start + timeout <= t.start + timeout
  {
    var i :| 0 <= i < |s.tasks| && s.tasks[i] == t;
    if i > 0 {
      DeadlinesInOrder(timeout, s, 0, i);
    }
  }

  /** What the thread leaves behind when it gives the lock back. */
  function AfterHolding(timeout: real, s: State, later: real): State
    requires s.worker.Awake? && s.now <= later
  {
    var turned := Turn(timeout, s);
    match turned.worker
    case Measured(sleep, at) => turned.(worker := WaitingUntil(later + sleep, later - at), now := later)
    case _ => turned.(now := later)
  }

  lemma {:induction false} HoldingIsRun(timeout: real, s: State, later: real)
    requires s.worker.Awake? && s.now <= later
    ensures Run(timeout, s, [Iterate, Tick(later - s.now), BeginWait]) == AfterHolding(timeout, s, later)
  {
    var a, b, c := Iterate, Tick(later - s.now), BeginWait;
    var s1 := Step(timeout, s, a);
    var s2 := Step(timeout, s1, b);
    assert [a, b, c][1..] == [b, c] && [b, c][1..] == [c] && [c][1..] == [];
    assert Run(timeout, s2, [c]) == Run(timeout, Step(timeout, s2, c), []);
    assert Run(timeout, s1, [b, c]) == Run(timeout, s2, [c]);
  }

  lemma {:induction false} HoldingKeepsInv(timeout: real, s: State, later: real)
    requires Inv(timeout, s) && s.worker.Awake? && s.now <= later
    ensures Run(timeout, s, [Iterate, Tick(later - s.now), BeginWait]) == AfterHolding(timeout, s, later)
    ensures Inv(timeout, AfterHolding(timeout, s, later))
  {
    HoldingIsRun(timeout, s, later);
    RunKeepsInv(timeout, s, [Iterate, Tick(later - s.now), BeginWait]);
  }

  lemma {:induction false} LeastIsFirst(timeout: real, s: State, sleep: real)
    requires Inv(timeout, s) && s.tasks != []
    requires exists t :: t in s.tasks && sleep == t.start + timeout - s.now
    requires forall t :: t in s.tasks ==> sleep <= t.start + timeout - s.now
    ensures sleep == s.tasks[0].start + timeout - s.now
  {
    var t :| t in s.tasks && sleep == t.start + timeout - s.now;
    FirstIsNext(timeout, s, t);
    assert s.tasks[0] in s.tasks;
  }

  /** Between reading the clock and beginning to wait, time goes by: the wait ends that much after the
      deadline. */
  lemma WaitEndsLate(timeout: real, start: real, gap: real)
    requires timeout > 0.0 && gap > 0.0
    ensures var s := Run(timeout, Initial(start), [Start, Schedule, Iterate, Tick(gap), BeginWait]);
            && s.tasks == [Task(0, start)] && s.worker == WaitingUntil(start + timeout + gap, gap)
            && start + timeout + gap > s.tasks[0].start + timeout
  {
    var actions := [Start, Schedule, Iterate, Tick(gap), BeginWait];
    var s1 := Step(timeout, Initial(start), Start);
    var s2 := Step(timeout, s1, Schedule);
    assert actions[1..] == [Schedule, Iterate, Tick(gap), BeginWait];
    assert actions[1..][1..] == [Iterate, Tick(gap), BeginWait];
    assert Run(timeout, Initial(start), actions) == Run(timeout, s2, [Iterate, Tick(gap), BeginWait]);
    HoldingIsRun(timeout, s2, start + gap);
  }

  // ----- the timer itself -----

  class SingleThreadedTimer {
    const timeout: real
    var started: bool
    /** The pending tasks, an insertion-ordered dictionary. */
    var tasks: seq<Task>
    /** The thread and the past, for the specification. */
    ghost var worker: Worker
    ghost var scheduled: seq<Task>
    ghost var cancelled: set<nat>
    ghost var popped: seq<Popped>

    constructor (timeout: real, ghost now: real)
      ensures this.timeout == timeout && View(now) == Initial(now) && !started && Valid(now)
    {
      this.timeout, started, tasks := timeout, false, [];
      worker, scheduled, cancelled, popped := NotStarted, [], {}, [];
    }

    ghost function View(now: real): State
      reads this
    {
      State(tasks, now, worker, scheduled, cancelled, popped)
    }

    /** What holds whenever nobody has the lock. */
    ghost predicate Valid(now: real)
      reads this
    {
      Inv(timeout, View(now)) && started == !worker.NotStarted? && !worker.Measured?
    }

    /** Start the thread, once. */
    method StartThread(ghost now: real)
      requires Valid(now)
      modifies this`started, this`worker
      ensures View(now) == Step(timeout, old(View(now)), Start) && Valid(now) && started
    {
      StepKeepsInv(timeout, View(now), Start);
      if !started {
        started := true;
        worker := Awake;
      }
    }

    /** What scheduling does once it has the lock. */
    method AddTask(id: nat, now: real) returns (task: Task)
      requires Valid(now) && started && id == |scheduled|
      modifies this
      ensures View(now) == Step(timeout, old(View(now)), Schedule) && Valid(now) && started
      ensures task == Task(id, now) && tasks == old(tasks) + [task]
    {
      StepKeepsInv(timeout, View(now), Schedule);
      task := Task(id, now);
      tasks := tasks + [task];
      scheduled := scheduled + [task];
      worker := Notified(worker);
    }

    /** Schedule a task at the given time. Before it gets the lock, the thread may already have taken a turn
        on an empty map, and wait for a task. */
    method ScheduleTask(id: nat, now: real, ghost workerFirst: bool) returns (task: Task)
      requires Valid(now) && id == |scheduled|
      requires workerFirst ==> tasks == []
      modifies this
      ensures var s := Step(timeout, old(View(now)), Start);
              View(now) == Step(timeout, if workerFirst then Step(timeout, s, Iterate) else s, Schedule)
      ensures Valid(now) && started && task == Task(id, now) && task in tasks
    {
      StartThread(now);
      StepKeepsInv(timeout, View(now), Iterate);
      if workerFirst && worker.Awake? {
        worker := WaitingForTask;
      }
      task := AddTask(id, now);
    }

    method CancelTask(task: Task, ghost now: real)
      requires Valid(now)
      modifies this
      ensures View(now) == Step(timeout, old(View(now)), Cancel(task.id)) && Valid(now) && started == old(started)
      ensures forall t :: t in tasks <==> t in old(tasks) && t.id != task.id
    {
      WithoutIsRest(tasks, task.id);
      StepKeepsInv(timeout, View(now), Cancel(task.id));
      if task.id in Ids(tasks) {
        cancelled := cancelled + {task.id};
      }
      tasks := Without(tasks, task.id);
      worker := Notified(worker);
    }

    function NextTask(): Option<Task>
      reads this
    {
      if tasks == [] then None else Some(tasks[0])
    }

    /** The least time that is left to any pending task. */
    method SleepTimeUntilNextTask(now: real) returns (sleep: real)
      requires Valid(now)
      ensures tasks == [] ==> sleep == 0.0
      ensures tasks != [] ==> exists t :: t in tasks && sleep == t.start + timeout - now
      ensures forall t :: t in tasks ==> sleep <= t.start + timeout - now
    {
      var next := NextTask();
      sleep := if next.None? then 0.0 else next.value.start + timeout - now;
      forall t | t in tasks
        ensures sleep <= t.start + timeout - now
      {
        FirstIsNext(timeout, View(now), t);
      }
      assert next.Some? ==> next.value in tasks;
    }

    /** What the thread does while it holds the lock; it then runs the job, if there is one. later: when it
        gives the lock back. */
    method RunOnce(now: real, ghost later: real) returns (job: Option<Task>)
      requires Valid(now) && worker.Awake? && now <= later
      modifies this
      ensures View(later) == Run(timeout, old(View(now)), [Iterate, Tick(later - now), BeginWait])
      ensures Valid(later) && started == old(started)
      ensures job.Some? <==> worker.RunningTask?
      ensures job.Some? ==> old(tasks) != [] && job.value == old(tasks)[0] && job.value.start + timeout <= now
    {
      job := None;
      ghost var s := View(now);
      ghost var target := AfterHolding(timeout, s, later);
      HoldingKeepsInv(timeout, s, later);
      var sleep := SleepTimeUntilNextTask(now);
      if |tasks| == 0 {
        worker := WaitingForTask;
      } else {
        LeastIsFirst(timeout, s, sleep);
        if sleep > 0.0 {
          worker := WaitingUntil(later + sleep, later - now);
        } else {
          job := Some(tasks[0]);
          worker, popped := RunningTask(tasks[0].id), popped + [Popped(tasks[0], now)];
          tasks := tasks[1..];
        }
      }
      assert View(later) == target;
    }
  }
}
