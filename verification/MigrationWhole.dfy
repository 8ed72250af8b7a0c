/** One migration among all others: what happens to the fleet, and what that means for the migration's own
    operations. */
module MigrationWhole {
  import opened Wrappers
  import opened MigrationRow
  import Fleet = MigrationFleet
  import Saga = MigrationSaga

  /** An event of the fleet, an action of the migration that is looked at, or an event that is one. */
  datatype Move = Move(event: Option<Fleet.Event>, action: Option<Saga.Action>)

  datatype Whole = Whole(fleet: Fleet.Fleet, saga: Saga.Saga)

  function Step(cfg: Fleet.Config, n: nat, w: Whole, move: Move): Whole {
    Whole(if move.event.Some? then Fleet.After(cfg, w.fleet, move.event.value) else w.fleet,
          if move.action.Some? then Saga.Step(n, w.saga, move.action.value) else w.saga)
  }

  function Run(cfg: Fleet.Config, n: nat, w: Whole, moves: seq<Move>): Whole
    decreases |moves|
  {
    if moves == [] then w else Run(cfg, n, Step(cfg, n, w, moves[0]), moves[1..])
  }

  // ----- which action an event is -----

  /** The event takes a fresh start of m from the queue. */
  predicate Starts(f: Fleet.Fleet, m: Fleet.Name, e: Fleet.Event) {
    e.StartTask? && e.index < |f.queue| && f.queue[e.index] == Fleet.Task(m, true)
  }

  /** What becomes of a fresh start. */
  function StartAction(before: Status, after: Status): Saga.Action {
    if after == before then Saga.StartRefused
    else if after.FailedAtStartup? then Saga.StartFails
    else Saga.StartRuns
  }

  /** The event is a request or an outcome that concerns m and is not refused. */
  predicate Concerns(cfg: Fleet.Config, f: Fleet.Fleet, m: Fleet.Name, e: Fleet.Event) {
    match e
    case Trigger(x) => x == m && m in f.rows && !Fleet.AtLimit(f.rows) && m in cfg.inRange
    case RunNext(_) => false
    case StartTask(_, _) => Starts(f, m, e)
    case Finish(x) => x == m && Fleet.Is(f, m, Running)
    case Fail(x, _, _) => x == m && Fleet.Is(f, m, Running)
    case Resume(x) => x == m && Fleet.Is(f, m, Errored)
    case RollBack(x, _) => x == m && Fleet.Is(f, m, Errored)
    case ForceRollBack(x, _) => x == m && Fleet.Is(f, m, CompletedSuccessfully)
  }

  /** Whether a rollback of all operations that may be in force succeeds. */
  predicate Clean(n: nat, s: Saga.Saga, failAt: Option<nat>) {
    failAt.None? || failAt.value > Saga.RollbackStart(n, s.row.index)
  }

  /** The ways in which a running migration comes to an error. */
  predicate IsFailure(n: nat, s: Saga.Saga, a: Saga.Action, rollback: bool, clean: bool) {
    match a
    case OpFails(auto, failAt) => s.row.index < n && rollback == auto && clean == Clean(n, s, failAt)
    case CrashFound(continue', auto, failAt) => !continue' && rollback == auto && clean == Clean(n, s, failAt)
    case ForceStop(wanted, auto, failAt) => rollback == (wanted && auto) && clean == Clean(n, s, failAt)
    case _ => false
  }

  /** a is what an event that concerns m is for m. */
  predicate IsActionOf(
      cfg: Fleet.Config, n: nat, w: Whole, m: Fleet.Name, e: Fleet.Event, a: Saga.Action)
    requires m in w.fleet.rows && m in Fleet.After(cfg, w.fleet, e).rows
  {
    match e
    case Trigger(_) => a.Trigger?
    case RunNext(_) => false
    case StartTask(_, _) => a == StartAction(w.fleet.rows[m], Fleet.After(cfg, w.fleet, e).rows[m])
    case Finish(_) => a.Finish? && w.saga.row.index >= n
    case Fail(_, rollback, clean) => IsFailure(n, w.saga, a, rollback, clean)
    case Resume(_) => a.Resume?
    case RollBack(_, clean) => a.RollBack? && clean == Clean(n, w.saga, a.failAt)
    case ForceRollBack(_, clean) => a.ForceRollBack? && clean == Clean(n, w.saga, a.failAt)
  }

  /** A running migration makes progress, or loses its worker and gets another one. The fleet does not notice. */
  predicate IsProgress(a: Saga.Action) {
    a.OpDone? || a.OpLost? || (a.CrashFound? && a.autoContinue)
  }

  /** Events and actions go together. */
  predicate Matches(cfg: Fleet.Config, n: nat, w: Whole, m: Fleet.Name, move: Move)
    requires m in w.fleet.rows
  {
    match move.event
    case None => move.action.Some? && IsProgress(move.action.value)
    case Some(e) =>
      if Concerns(cfg, w.fleet, m, e)
      then move.action.Some? && m in Fleet.After(cfg, w.fleet, e).rows && IsActionOf(cfg, n, w, m, e, move.action.value)
      else move.action.None?
  }

  // ----- requests that keep every index truthful -----

  /** A request that does not name a migration whose fresh start is already queued, nor triggers one of which
      anything may be in place, nor undoes a completed one. */
  predicate Suitable(f: Fleet.Fleet, e: Fleet.Event) {
    Fleet.Careful(f, e) && (e.Trigger? && e.name in f.rows ==> Fresh(f.rows[e.name]) || f.rows[e.name].Running?)
  }

  predicate Linked(w: Whole, m: Fleet.Name) {
    m in w.fleet.rows && w.saga.row.status == w.fleet.rows[m]
  }

  ghost predicate WholeInv(cfg: Fleet.Config, n: nat, w: Whole, m: Fleet.Name) {
    Fleet.FleetInv(cfg, w.fleet) && Linked(w, m) && Saga.SagaInv(n, w.saga)
  }

  /** An event that does not concern m leaves its status alone. */
  lemma OthersLeaveAlone(cfg: Fleet.Config, f: Fleet.Fleet, m: Fleet.Name, e: Fleet.Event)
    requires m in f.rows && !Concerns(cfg, f, m, e)
    ensures m in Fleet.After(cfg, f, e).rows && Fleet.After(cfg, f, e).rows[m] == f.rows[m]
  {
  }

  /** A queued fresh start is of a migration of which nothing is in place. */
  lemma StartsFresh(cfg: Fleet.Config, f: Fleet.Fleet, m: Fleet.Name, e: Fleet.Event)
    requires Fleet.FleetInv(cfg, f) && Starts(f, m, e)
    ensures m in f.rows && Fresh(f.rows[m])
    ensures var after := Fleet.After(cfg, f, e).rows;
            m in after && (after[m] == f.rows[m] || after[m].FailedAtStartup? || after[m].Running?)
  {
    assert f.queue[e.index] in f.queue;
    assert m in cfg.required;
  }

  lemma RunningIsAtLimit(f: Fleet.Fleet, m: Fleet.Name)
    requires Fleet.Is(f, m, Running)
    ensures Fleet.AtLimit(f.rows)
  {
    assert m in Fleet.RunningMigrations(f.rows);
    Fleet.SubsetIsNoLarger({m}, Fleet.RunningMigrations(f.rows));
  }

  /** The action that an event is for m is a disciplined one, and has the same effect on the status. */
  lemma EventIsAction(
      cfg: Fleet.Config, n: nat, w: Whole, m: Fleet.Name, e: Fleet.Event, a: Saga.Action)
    requires WholeInv(cfg, n, w, m) && Suitable(w.fleet, e) && Concerns(cfg, w.fleet, m, e)
    requires m in Fleet.After(cfg, w.fleet, e).rows && IsActionOf(cfg, n, w, m, e, a)
    ensures Saga.Disciplined(w.saga, a)
    ensures Saga.Step(n, w.saga, a).row.status == Fleet.After(cfg, w.fleet, e).rows[m]
  {
    if e.StartTask? {
      StartsFresh(cfg, w.fleet, m, e);
    }
    if Fleet.Is(w.fleet, m, Running) {
      RunningIsAtLimit(w.fleet, m);
    }
  }

  lemma StepKeepsWhole(cfg: Fleet.Config, n: nat, w: Whole, m: Fleet.Name, move: Move)
    requires Fleet.InvertsDependencies(cfg) && WholeInv(cfg, n, w, m)
    requires Matches(cfg, n, w, m, move) && (move.event.Some? ==> Suitable(w.fleet, move.event.value))
    ensures WholeInv(cfg, n, Step(cfg, n, w, move), m)
    ensures move.action.Some? ==> Saga.Disciplined(w.saga, move.action.value)
  {
    if move.event.Some? {
      var e := move.event.value;
      Fleet.AfterKeepsFleet(cfg, w.fleet, e);
      if Concerns(cfg, w.fleet, m, e) {
        EventIsAction(cfg, n, w, m, e, move.action.value);
      } else {
        OthersLeaveAlone(cfg, w.fleet, m, e);
      }
    }
    if move.action.Some? {
      Saga.StepKeepsSaga(n, w.saga, move.action.value);
    }
  }

  ghost predicate SuitableRun(cfg: Fleet.Config, n: nat, w: Whole, m: Fleet.Name, moves: seq<Move>)
    requires m in w.fleet.rows
    decreases |moves|
  {
    moves == [] ||
    var w' := Step(cfg, n, w, moves[0]);
    && Matches(cfg, n, w, m, moves[0])
    && (moves[0].event.Some? ==> Suitable(w.fleet, moves[0].event.value))
    && m in w'.fleet.rows && SuitableRun(cfg, n, w', m, moves[1..])
  }

  /** The actions of the migration that is looked at. */
  function ActionsOf(moves: seq<Move>): seq<Saga.Action>
    decreases |moves|
  {
    if moves == [] then [] else
    (if moves[0].action.Some? then [moves[0].action.value] else []) + ActionsOf(moves[1..])
  }

  /** Where requests are suitable, whatever happens to the other migrations and in whatever order: the
      migration's own actions are a disciplined run, so all that holds of those holds of it. Its index stays
      truthful, its dependency is finished before it gets going, and its status is what the fleet sees. */
  lemma {:induction false} IndexStaysTruthful(
      cfg: Fleet.Config, n: nat, w: Whole, m: Fleet.Name, moves: seq<Move>)
    requires Fleet.InvertsDependencies(cfg) && WholeInv(cfg, n, w, m) && SuitableRun(cfg, n, w, m, moves)
    ensures WholeInv(cfg, n, Run(cfg, n, w, moves), m)
    ensures Saga.DisciplinedRun(n, w.saga, ActionsOf(moves))
    ensures Run(cfg, n, w, moves).saga == Saga.Run(n, w.saga, ActionsOf(moves))
    decreases |moves|
  {
    if moves == [] {
    } else {
      var w' := Step(cfg, n, w, moves[0]);
      StepKeepsWhole(cfg, n, w, m, moves[0]);
      IndexStaysTruthful(cfg, n, w', m, moves[1..]);
      var rest := ActionsOf(moves[1..]);
      if moves[0].action.Some? {
        assert ActionsOf(moves) == [moves[0].action.value] + rest;
        assert ActionsOf(moves)[1..] == rest;
      } else {
        assert ActionsOf(moves) == [] + rest == rest;
      }
    }
  }

  // ----- careful requests are not enough -----

  const ERRED := Saga.Saga(
    Row(Errored, 2, 66), [Saga.Ran(0, Saga.Done), Saga.Ran(1, Saga.Done), Saga.Ran(2, Saga.Failed)])

  /** The only migration is errored in the last of its three operations. */
  function Erred(m: Fleet.Name): Whole {
    Whole(Fleet.Fleet(map[m := Errored], []), ERRED)
  }

  function Restart(m: Fleet.Name): seq<Move> {
    [Move(Some(Fleet.Trigger(m)), Some(Saga.Trigger)),
     Move(Some(Fleet.StartTask(0, Fleet.ALL_PASS)), Some(Saga.StartRuns))]
  }

  lemma ErredIsTruthful()
    ensures Saga.SagaInv(3, ERRED) && Saga.TagOf(ERRED.log, 1) == Saga.InForce
  {
    var two, one := ERRED.log[..2], ERRED.log[..1];
    assert two == [Saga.Ran(0, Saga.Done), Saga.Ran(1, Saga.Done)] && two[..1] == one == [Saga.Ran(0, Saga.Done)];
    assert Saga.TagOf(one, 0) == Saga.InForce;
    assert Saga.TagOf(two, 0) == Saga.InForce && Saga.TagOf(two, 1) == Saga.InForce;
    assert Saga.TagOf(ERRED.log, 0) == Saga.InForce && Saga.TagOf(ERRED.log, 1) == Saga.InForce;
  }

  lemma RestartRuns(cfg: Fleet.Config, m: Fleet.Name)
    requires cfg.inRange == {m} && cfg.required == {m} && cfg.dependencyOf == map[m := None]
    ensures Run(cfg, 3, Erred(m), Restart(m)) ==
            Whole(Fleet.Fleet(map[m := Running], []), Saga.Saga(Row(Running, 0, 0), ERRED.log))
  {
    var w, moves := Erred(m), Restart(m);
    assert Fleet.RunningMigrations(w.fleet.rows) == {};
    var w1 := Step(cfg, 3, w, moves[0]);
    assert w1.fleet == Fleet.Fleet(map[m := Starting], [Fleet.Task(m, true)]);
    assert Fleet.RunningMigrations(w1.fleet.rows) == {};
    var w2 := Step(cfg, 3, w1, moves[1]);
    assert w2.fleet == Fleet.Fleet(map[m := Running], []);
    assert moves[1..] == [moves[1]] && [moves[1]][1..] == [];
    assert Run(cfg, 3, w1, [moves[1]]) == Run(cfg, 3, w2, []);
  }

  /** Triggering an errored migration, which no guard refuses, starts it afresh although an operation after the
      first is in force. */
  lemma CarefulIsNotSuitable(cfg: Fleet.Config, m: Fleet.Name)
    requires cfg.inRange == {m} && cfg.required == {m} && cfg.dependencyOf == map[m := None]
    ensures var w := Erred(m);
            && WholeInv(cfg, 3, w, m) && Fleet.Careful(w.fleet, Fleet.Trigger(m))
            && !Suitable(w.fleet, Fleet.Trigger(m))
            && Linked(Run(cfg, 3, w, Restart(m)), m) && !Saga.SagaInv(3, Run(cfg, 3, w, Restart(m)).saga)
  {
    ErredIsTruthful();
    RestartRuns(cfg, m);
  }
}
