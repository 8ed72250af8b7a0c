/** All async migrations of an instance: their statuses, the task queue, and the dependency chain. */
module MigrationFleet {
  import opened Wrappers
  import opened MigrationRow

  type Name = string

  /** dependentOf inverts dependencyOf; the root is what depends on None. */
  datatype Config = Config(
    dependencyOf: map<Name, Option<Name>>,
    dependentOf: map<Option<Name>, Name>,
    inRange: set<Name>,
    required: set<Name>,
    autoStart: bool)

  datatype Task = Task(name: Name, fromStart: bool)

  datatype Fleet = Fleet(rows: map<Name, Status>, queue: seq<Task>)

  /** What the checks at startup find. */
  datatype Checks = Checks(services: bool, health: bool)

  const ALL_PASS := Checks(true, true)

  const MAX_CONCURRENT_ASYNC_MIGRATIONS := 1

  function RunningMigrations(rows: map<Name, Status>): set<Name> {
    set n | n in rows && rows[n].Running?
  }

  predicate AtLimit(rows: map<Name, Status>) {
    |RunningMigrations(rows)| >= MAX_CONCURRENT_ASYNC_MIGRATIONS
  }

  predicate DependencyFulfilled(cfg: Config, rows: map<Name, Status>, m: Name) {
    m in cfg.dependencyOf &&
    var d := cfg.dependencyOf[m];
    d.None? || (d.value in rows && rows[d.value].CompletedSuccessfully?)
  }

  /** Looking up the row of a dependency that has none raises. */
  predicate DependencyUnknown(cfg: Config, rows: map<Name, Status>, m: Name) {
    m !in cfg.dependencyOf || (cfg.dependencyOf[m].Some? && cfg.dependencyOf[m].value !in rows)
  }

  function Enqueue(f: Fleet, m: Name, fromStart: bool): Fleet {
    f.(queue := f.queue + [Task(m, fromStart)])
  }

  function RunNextMigration(cfg: Config, f: Fleet, m: Name): Fleet {
    if m in f.rows && DependencyFulfilled(cfg, f.rows, m) && m in cfg.inRange && f.rows[m].NotStarted?
    then Enqueue(f, m, true) else f
  }

  function CompleteMigration(cfg: Config, f: Fleet, m: Name): Fleet {
    var done := f.(rows := f.rows[m := CompletedSuccessfully]);
    if cfg.autoStart && Some(m) in cfg.dependentOf then RunNextMigration(cfg, done, cfg.dependentOf[Some(m)]) else done
  }

  function StartMigration(cfg: Config, f: Fleet, m: Name, checks: Checks): Fleet {
    if m !in f.rows || AtLimit(f.rows) || m !in cfg.inRange || f.rows[m].Running? then f
    else if m !in cfg.required then CompleteMigration(cfg, f, m)
    else if !checks.services then f.(rows := f.rows[m := FailedAtStartup])
    else if DependencyUnknown(cfg, f.rows, m) then f
    else if !DependencyFulfilled(cfg, f.rows, m) || !checks.health then f.(rows := f.rows[m := FailedAtStartup])
    else f.(rows := f.rows[m := Running])
  }

  /** Everything that changes a status. clean: the rollback that goes with it succeeds. */
  datatype Event =
    | Trigger(name: Name)
    | RunNext(name: Name)
    | StartTask(index: nat, checks: Checks)
    | Finish(name: Name)
    | Fail(name: Name, rollback: bool, clean: bool)
    | Resume(name: Name)
    | RollBack(name: Name, clean: bool)
    | ForceRollBack(name: Name, clean: bool)

  function After(cfg: Config, f: Fleet, e: Event): Fleet {
    match e
    case Trigger(m) =>
      if m !in f.rows || AtLimit(f.rows) || m !in cfg.inRange then f
      else Enqueue(f.(rows := f.rows[m := Starting]), m, true)
    case RunNext(m) => RunNextMigration(cfg, f, m)
    case StartTask(i, checks) =>
      if i >= |f.queue| then f else
      var rest := f.(queue := f.queue[..i] + f.queue[i + 1..]);
      if f.queue[i].fromStart then StartMigration(cfg, rest, f.queue[i].name, checks) else rest
    case Finish(m) => if Is(f, m, Running) then CompleteMigration(cfg, f, m) else f
    case Fail(m, rollback, clean) =>
      if Is(f, m, Running) then f.(rows := f.rows[m := if rollback && clean then RolledBack else Errored]) else f
    case Resume(m) =>
      if Is(f, m, Errored) then Enqueue(f.(rows := f.rows[m := Running]), m, false) else f
    case RollBack(m, clean) =>
      if Is(f, m, Errored) then f.(rows := f.rows[m := if clean then RolledBack else Errored]) else f
    case ForceRollBack(m, clean) =>
      if Is(f, m, CompletedSuccessfully) then f.(rows := f.rows[m := if clean then RolledBack else Errored]) else f
  }

  predicate Is(f: Fleet, m: Name, status: Status) {
    m in f.rows && f.rows[m] == status
  }

  function Run(cfg: Config, f: Fleet, events: seq<Event>): Fleet
    decreases |events|
  {
    if events == [] then f else Run(cfg, After(cfg, f, events[0]), events[1..])
  }

  // ----- what events do -----

  /** The migration's dependency, if it has one, is completed. */
  predicate DependencyDone(cfg: Config, rows: map<Name, Status>, m: Name) {
    m in cfg.dependencyOf &&
    match cfg.dependencyOf[m]
    case None => true
    case Some(d) => d in rows && rows[d] == CompletedSuccessfully
  }

  /** Nothing runs, and this release may run the migration. */
  predicate MayStart(cfg: Config, rows: map<Name, Status>, m: Name) {
    m in rows && m in cfg.inRange && forall x | x in rows :: rows[x] != Running
  }

  /** Once m is completed, the migration that depends on it is tried, and it waits to be started. */
  predicate NextWaits(cfg: Config, rows: map<Name, Status>, m: Name) {
    cfg.autoStart && Some(m) in cfg.dependentOf &&
    var next := cfg.dependentOf[Some(m)];
    next in rows && rows[next] == NotStarted && next in cfg.inRange && DependencyDone(cfg, rows, next)
  }

  /** The task for that. */
  function NextTask(cfg: Config, rows: map<Name, Status>, m: Name): seq<Task> {
    if NextWaits(cfg, rows, m) then [Task(cfg.dependentOf[Some(m)], true)] else []
  }

  lemma LimitMeaning(rows: map<Name, Status>)
    ensures AtLimit(rows) <==> exists x :: x in rows && rows[x] == Running
  {
    if x :| x in rows && rows[x] == Running {
      assert x in RunningMigrations(rows);
    }
    if AtLimit(rows) {
      var x :| x in RunningMigrations(rows);
      assert rows[x] == Running;
    }
  }

  lemma CompletionMeaning(cfg: Config, f: Fleet, m: Name)
    ensures var rows := f.rows[m := CompletedSuccessfully];
            CompleteMigration(cfg, f, m) == Fleet(rows, f.queue + NextTask(cfg, rows, m))
  {
    assert f.queue + [] == f.queue;
  }

  /** A start runs the migration exactly if it may start, is required, and its dependency and all checks are
      fine. If one of those is not, it fails at startup; if it is not required, it is completed at once; and if
      it may not start, or the lookup of its dependency raises, nothing changes. */
  lemma StartMeaning(cfg: Config, f: Fleet, m: Name, checks: Checks)
    ensures var fine := checks.services && checks.health && DependencyDone(cfg, f.rows, m);
            var raises := checks.services && DependencyUnknown(cfg, f.rows, m);
            StartMigration(cfg, f, m, checks) ==
            if !MayStart(cfg, f.rows, m) || (m in cfg.required && raises) then f
            else if m !in cfg.required then CompleteMigration(cfg, f, m)
            else f.(rows := f.rows[m := if fine then Running else FailedAtStartup])
  {
    LimitMeaning(f.rows);
  }

  /** What the requests leave behind: a trigger and a resume set the status and queue one task each. */
  lemma RequestMeaning(cfg: Config, f: Fleet, m: Name)
    requires m in f.rows
    ensures After(cfg, f, Trigger(m)) ==
            if MayStart(cfg, f.rows, m) then Fleet(f.rows[m := Starting], f.queue + [Task(m, true)]) else f
    ensures After(cfg, f, Resume(m)) ==
            if f.rows[m] == Errored then Fleet(f.rows[m := Running], f.queue + [Task(m, false)]) else f
  {
    LimitMeaning(f.rows);
  }

  /** What happens to a migration in the end: only its own status changes, and only by completing is another
      one queued. */
  lemma OutcomeMeaning(cfg: Config, f: Fleet, m: Name, rollback: bool, clean: bool)
    requires m in f.rows
    ensures After(cfg, f, Finish(m)) ==
            if f.rows[m] != Running then f else
            var rows := f.rows[m := CompletedSuccessfully]; Fleet(rows, f.queue + NextTask(cfg, rows, m))
    ensures After(cfg, f, Fail(m, rollback, clean)) ==
            if f.rows[m] != Running then f
            else Fleet(f.rows[m := if rollback && clean then RolledBack else Errored], f.queue)
    ensures After(cfg, f, RollBack(m, clean)) ==
            if f.rows[m] != Errored then f else Fleet(f.rows[m := if clean then RolledBack else Errored], f.queue)
    ensures After(cfg, f, ForceRollBack(m, clean)) ==
            if f.rows[m] != CompletedSuccessfully then f
            else Fleet(f.rows[m := if clean then RolledBack else Errored], f.queue)
  {
    CompletionMeaning(cfg, f, m);
  }

  // ----- at most one migration runs -----

  predicate WithinLimit(rows: map<Name, Status>) {
    |RunningMigrations(rows)| <= MAX_CONCURRENT_ASYNC_MIGRATIONS
  }

  lemma SubsetIsNoLarger<T>(a: set<T>, b: set<T>)
    requires a <= b
    ensures |a| <= |b|
  {
    assert b == a + (b - a);
  }

  /** Every status change but one either leaves the limit alone or checked it first. */
  lemma AfterKeepsLimit(cfg: Config, f: Fleet, e: Event)
    requires WithinLimit(f.rows)
    requires e.Resume? ==> !Is(f, e.name, Errored) || RunningMigrations(f.rows) == {}
    ensures WithinLimit(After(cfg, f, e).rows)
  {
    var before, after := RunningMigrations(f.rows), RunningMigrations(After(cfg, f, e).rows);
    if after <= before {
      SubsetIsNoLarger(after, before);
    } else {
      var m :| m in after && m !in before;
      assert before == {};
      assert after == {m};
    }
  }

  /** Resuming takes no count: it keeps the limit if and only if nothing runs. */
  lemma ResumeExactly(cfg: Config, f: Fleet, m: Name)
    requires WithinLimit(f.rows) && Is(f, m, Errored)
    ensures WithinLimit(After(cfg, f, Resume(m)).rows) <==> RunningMigrations(f.rows) == {}
  {
    var before, after := RunningMigrations(f.rows), RunningMigrations(After(cfg, f, Resume(m)).rows);
    assert after == before + {m} && m !in before;
    if before == {} {
      assert after == {m};
    } else {
      assert |after| == |before| + 1;
    }
  }

  /** One migration runs and another is errored: both run after the other was resumed. */
  lemma ResumeBesideRunning(cfg: Config, a: Name, b: Name)
    requires a != b
    ensures var f := Fleet(map[a := Running, b := Errored], []);
            var f' := After(cfg, f, Resume(b));
            WithinLimit(f.rows) && f'.rows == map[a := Running, b := Running] && !WithinLimit(f'.rows)
  {
    var f := Fleet(map[a := Running, b := Errored], []);
    assert RunningMigrations(f.rows) == {a};
    ResumeExactly(cfg, f, b);
  }

  predicate ResumesAlone(cfg: Config, f: Fleet, events: seq<Event>)
    decreases |events|
  {
    events != [] ==>
    && (events[0].Resume? && Is(f, events[0].name, Errored) ==> RunningMigrations(f.rows) == {})
    && ResumesAlone(cfg, After(cfg, f, events[0]), events[1..])
  }

  lemma {:induction false} RunsStayWithinLimit(cfg: Config, f: Fleet, events: seq<Event>)
    requires WithinLimit(f.rows) && ResumesAlone(cfg, f, events)
    ensures WithinLimit(Run(cfg, f, events).rows)
    decreases |events|
  {
    if events == [] {
    } else {
      AfterKeepsLimit(cfg, f, events[0]);
      RunsStayWithinLimit(cfg, After(cfg, f, events[0]), events[1..]);
    }
  }

  // ----- a migration gets going only after its dependency -----

  predicate UnderWay(status: Status) {
    status.Running? || status.Errored? || status.CompletedSuccessfully?
  }

  predicate DependenciesFirst(cfg: Config, rows: map<Name, Status>) {
    forall m | m in rows && UnderWay(rows[m]) :: DependencyFulfilled(cfg, rows, m)
  }

  /** The event makes no completed migration anything else. */
  predicate LeavesCompletedAlone(cfg: Config, f: Fleet, e: Event) {
    forall m | m in f.rows && Is(f, m, CompletedSuccessfully) :: Is(After(cfg, f, e), m, CompletedSuccessfully)
  }

  /** What none of the guards asks: an accepted trigger, a forced rollback, or a queued fresh start that
      gets past the first checks, of a migration that is completed. */
  predicate Reopens(cfg: Config, f: Fleet, e: Event) {
    match e
    case Trigger(m) => Is(f, m, CompletedSuccessfully) && !AtLimit(f.rows) && m in cfg.inRange
    case ForceRollBack(m, _) => Is(f, m, CompletedSuccessfully)
    case StartTask(i, checks) =>
      && i < |f.queue| && f.queue[i].fromStart
      && var m := f.queue[i].name;
         && Is(f, m, CompletedSuccessfully) && !AtLimit(f.rows) && m in cfg.inRange && m in cfg.required
         && (!checks.services || !DependencyUnknown(cfg, f.rows, m))
    case _ => false
  }

  /** A completed migration stays completed unless one of those three happens. */
  lemma ReopensExactly(cfg: Config, f: Fleet, e: Event)
    ensures LeavesCompletedAlone(cfg, f, e) <==> !Reopens(cfg, f, e)
  {
    if Reopens(cfg, f, e) {
      var m := if e.StartTask? then f.queue[e.index].name else e.name;
      assert !Is(After(cfg, f, e), m, CompletedSuccessfully);
    }
  }

  lemma AfterKeepsDependenciesFirst(cfg: Config, f: Fleet, e: Event)
    requires DependenciesFirst(cfg, f.rows) && !Reopens(cfg, f, e)
    requires e.StartTask? && e.index < |f.queue| && f.queue[e.index].fromStart ==>
               f.queue[e.index].name in cfg.required
    ensures DependenciesFirst(cfg, After(cfg, f, e).rows)
  {
    var f' := After(cfg, f, e);
    ReopensExactly(cfg, f, e);
    forall m | m in f'.rows && UnderWay(f'.rows[m])
      ensures DependencyFulfilled(cfg, f'.rows, m)
    {
      assert DependencyFulfilled(cfg, f.rows, m);
    }
  }

  // ----- requests that keep it so -----

  /** dependentOf maps a migration to one that depends on it. */
  ghost predicate InvertsDependencies(cfg: Config) {
    forall d :: d in cfg.dependentOf ==>
      cfg.dependentOf[d] in cfg.dependencyOf && cfg.dependencyOf[cfg.dependentOf[d]] == d
  }

  predicate Queued(f: Fleet, m: Name) {
    Task(m, true) in f.queue
  }

  /** A queued fresh start is the only one of its migration, and that is waiting to be started. */
  predicate QueueInv(cfg: Config, f: Fleet) {
    && (forall i, j | 0 <= i < j < |f.queue| :: f.queue[i].fromStart ==> f.queue[i] != f.queue[j])
    && (forall t | t in f.queue && t.fromStart :: Waits(cfg, f.rows, t.name))
  }

  predicate Waits(cfg: Config, rows: map<Name, Status>, m: Name) {
    m in rows && (rows[m].Starting? || (rows[m].NotStarted? && DependencyFulfilled(cfg, rows, m)))
  }

  ghost predicate FleetInv(cfg: Config, f: Fleet) {
    DependenciesFirst(cfg, f.rows) && QueueInv(cfg, f) && forall m | m in f.rows :: m in cfg.required
  }

  /** A request that does not name a migration whose fresh start is already queued, nor asks for a
      completed one to be done again or undone. */
  predicate Careful(f: Fleet, e: Event) {
    match e
    case Trigger(m) => !Queued(f, m) && !Is(f, m, CompletedSuccessfully)
    case RunNext(m) => !Queued(f, m)
    case ForceRollBack(m, _) => !Is(f, m, CompletedSuccessfully)
    case _ => true
  }

  lemma CarefulLeavesCompletedAlone(cfg: Config, f: Fleet, e: Event)
    requires FleetInv(cfg, f) && Careful(f, e)
    ensures !Reopens(cfg, f, e)
  {
    if e.StartTask? && e.index < |f.queue| && f.queue[e.index].fromStart {
      assert f.queue[e.index] in f.queue;
    }
  }

  /** Queueing a fresh start that waits and is not queued keeps the queue in order. */
  lemma EnqueueKeepsQueue(cfg: Config, f: Fleet, t: Task)
    requires QueueInv(cfg, f)
    requires t.fromStart ==> t !in f.queue && Waits(cfg, f.rows, t.name)
    ensures QueueInv(cfg, Fleet(f.rows, f.queue + [t]))
  {
  }

  /** What waits goes on waiting while other rows change and no completed migration is reopened. */
  lemma StillWaits(cfg: Config, f: Fleet, rows: map<Name, Status>)
    requires QueueInv(cfg, f) && f.rows.Keys <= rows.Keys
    requires forall m | m in f.rows && Is(f, m, CompletedSuccessfully) :: rows[m].CompletedSuccessfully?
    requires forall t | t in f.queue && t.fromStart :: rows[t.name] == f.rows[t.name] || rows[t.name].Starting?
    ensures QueueInv(cfg, Fleet(rows, f.queue))
  {
  }

  lemma TakeKeepsQueue(cfg: Config, f: Fleet, i: nat)
    requires QueueInv(cfg, f) && i < |f.queue|
    ensures QueueInv(cfg, Fleet(f.rows, f.queue[..i] + f.queue[i + 1..]))
    ensures f.queue[i].fromStart ==> f.queue[i] !in f.queue[..i] + f.queue[i + 1..]
  {
    var rest := f.queue[..i] + f.queue[i + 1..];
    forall a, b | 0 <= a < b < |rest|
      ensures rest[a].fromStart ==> rest[a] != rest[b]
    {
      var a', b' := if a < i then a else a + 1, if b < i then b else b + 1;
      assert rest[a] == f.queue[a'] && rest[b] == f.queue[b'];
    }
  }

  lemma StartKeepsQueue(cfg: Config, f: Fleet, i: nat, checks: Checks)
    requires FleetInv(cfg, f)
    ensures QueueInv(cfg, After(cfg, f, StartTask(i, checks)))
  {
    if i < |f.queue| {
      var rest := Fleet(f.rows, f.queue[..i] + f.queue[i + 1..]);
      assert f.queue[i] in f.queue;
      TakeKeepsQueue(cfg, f, i);
      StillWaits(cfg, rest, After(cfg, f, StartTask(i, checks)).rows);
    }
  }

  lemma FinishKeepsQueue(cfg: Config, f: Fleet, m: Name)
    requires InvertsDependencies(cfg) && FleetInv(cfg, f) && Is(f, m, Running)
    ensures QueueInv(cfg, CompleteMigration(cfg, f, m))
  {
    var done := Fleet(f.rows[m := CompletedSuccessfully], f.queue);
    StillWaits(cfg, f, done.rows);
    if cfg.autoStart && Some(m) in cfg.dependentOf {
      var next := cfg.dependentOf[Some(m)];
      assert cfg.dependencyOf[next] == Some(m);
      if next in done.rows && done.rows[next].NotStarted? && DependencyFulfilled(cfg, done.rows, next) {
        EnqueueKeepsQueue(cfg, done, Task(next, true));
      }
    }
  }

  lemma AfterKeepsQueue(cfg: Config, f: Fleet, e: Event)
    requires InvertsDependencies(cfg) && FleetInv(cfg, f) && Careful(f, e)
    ensures QueueInv(cfg, After(cfg, f, e))
  {
    var f' := After(cfg, f, e);
    match e
    case Trigger(m) =>
      if f' != f {
        StillWaits(cfg, f, f'.rows);
        EnqueueKeepsQueue(cfg, Fleet(f'.rows, f.queue), Task(m, true));
      }
    case RunNext(m) => if f' != f { EnqueueKeepsQueue(cfg, f, Task(m, true)); }
    case StartTask(i, checks) => StartKeepsQueue(cfg, f, i, checks);
    case Finish(m) => if Is(f, m, Running) { FinishKeepsQueue(cfg, f, m); }
    case Resume(m) =>
      StillWaits(cfg, f, f'.rows);
      EnqueueKeepsQueue(cfg, Fleet(f'.rows, f.queue), Task(m, false));
    case _ => StillWaits(cfg, f, f'.rows);
  }

  lemma AfterKeepsFleet(cfg: Config, f: Fleet, e: Event)
    requires InvertsDependencies(cfg) && FleetInv(cfg, f) && Careful(f, e)
    ensures FleetInv(cfg, After(cfg, f, e))
  {
    CarefulLeavesCompletedAlone(cfg, f, e);
    assert e.StartTask? && e.index < |f.queue| && f.queue[e.index].fromStart ==> f.queue[e.index] in f.queue;
    AfterKeepsDependenciesFirst(cfg, f, e);
    AfterKeepsQueue(cfg, f, e);
    assert After(cfg, f, e).rows.Keys == f.rows.Keys;
  }

  predicate CarefulRun(cfg: Config, f: Fleet, events: seq<Event>)
    decreases |events|
  {
    events == [] || (Careful(f, events[0]) && CarefulRun(cfg, After(cfg, f, events[0]), events[1..]))
  }

  /** Where all migrations are required and requests are careful, whatever runs, failed or finished has its
      dependency finished, and no completed migration is ever anything else again. */
  lemma {:induction false} RunsKeepDependenciesFirst(cfg: Config, f: Fleet, events: seq<Event>)
    requires InvertsDependencies(cfg) && FleetInv(cfg, f) && CarefulRun(cfg, f, events)
    ensures var f' := Run(cfg, f, events);
            && FleetInv(cfg, f')
            && forall m | m in f.rows && Is(f, m, CompletedSuccessfully) :: Is(f', m, CompletedSuccessfully)
    decreases |events|
  {
    if events == [] {
    } else {
      CarefulLeavesCompletedAlone(cfg, f, events[0]);
      ReopensExactly(cfg, f, events[0]);
      AfterKeepsFleet(cfg, f, events[0]);
      RunsKeepDependenciesFirst(cfg, After(cfg, f, events[0]), events[1..]);
    }
  }

  /** Taking a completed migration out of that state is allowed by the trigger, start and forced
      rollback requests. It is harmless if and only if nothing that depends on it is under way. */
  lemma LeaveCompletedExactly(cfg: Config, f: Fleet, m: Name, status: Status)
    requires DependenciesFirst(cfg, f.rows) && Is(f, m, CompletedSuccessfully)
    requires !status.CompletedSuccessfully?
    ensures DependenciesFirst(cfg, f.rows[m := status]) <==>
            forall d | d in f.rows && d in cfg.dependencyOf && cfg.dependencyOf[d] == Some(m) ::
              !UnderWay(if d == m then status else f.rows[d])
  {
    var rows := f.rows[m := status];
    forall d | d in f.rows
      ensures rows[d] == if d == m then status else f.rows[d]
    {
    }
    if DependenciesFirst(cfg, rows) {
      forall d | d in f.rows && d in cfg.dependencyOf && cfg.dependencyOf[d] == Some(m)
        ensures !UnderWay(if d == m then status else f.rows[d])
      {
        assert !DependencyFulfilled(cfg, rows, d);
      }
    } else {
      var d :| d in rows && UnderWay(rows[d]) && !DependencyFulfilled(cfg, rows, d);
      assert DependencyFulfilled(cfg, f.rows, d);
    }
  }

  /** Starting does not ask whether the migration is done. A root that two processes kick off while it
      is not started is queued twice, and the second task runs it again after it completed. */
  lemma QueuedTwiceRunsTwice(cfg: Config, m: Name, f: Fleet)
    requires m in cfg.dependencyOf && cfg.dependencyOf[m].None? && Some(m) !in cfg.dependentOf
    requires m in cfg.inRange && m in cfg.required
    requires f == Fleet(map[m := NotStarted], [])
    ensures var queued := After(cfg, After(cfg, f, RunNext(m)), RunNext(m));
            var done := After(cfg, After(cfg, queued, StartTask(0, ALL_PASS)), Finish(m));
            Is(done, m, CompletedSuccessfully) && Is(After(cfg, done, StartTask(0, ALL_PASS)), m, Running)
  {
    var queued := After(cfg, After(cfg, f, RunNext(m)), RunNext(m));
    assert queued == Fleet(f.rows, [Task(m, true), Task(m, true)]);
    assert RunningMigrations(queued.rows) == {};
    var done := After(cfg, After(cfg, queued, StartTask(0, ALL_PASS)), Finish(m));
    assert done == Fleet(map[m := CompletedSuccessfully], [Task(m, true)]);
    assert RunningMigrations(done.rows) == {};
  }
}
