/** One async migration as a saga: operations run forward under a stored index, and a failure or a
    forced stop compensates them in reverse order. */
module MigrationSaga {
  import opened Wrappers
  import opened MigrationRow

  /** How an attempt at an operation ended; Lost: the worker died in it, or before it could store
      the new index, so nobody knows how much of it happened. */
  datatype Outcome = Done | Failed | Lost

  datatype Event = Ran(op: nat, outcome: Outcome) | Undid(op: nat, ok: bool)

  /** A migration's row and everything that was executed for it so far. */
  datatype Saga = Saga(row: Row, log: seq<Event>)

  const NEW_SAGA := Saga(NEW_ROW, [])

  // ----- steps -----

  /** Rollbacks of operations from, from - 1, ..., to, all of which succeed. */
  function Undos(from: int, to: nat): (events: seq<Event>)
    ensures |events| == if from < to then 0 else from - to + 1
    ensures forall t :: 0 <= t < |events| ==> events[t] == Undid(from - t, true)
    decreases from - to + 1
  {
    if from < to then [] else Undos(from, to + 1) + [Undid(to, true)]
  }

  /** The operation that a rollback starts with; -1 if there is none. */
  function RollbackStart(n: nat, index: nat): int {
    if index < n then index else n - 1
  }

  /** Roll back from the current operation down to operation 0. failAt is the first operation that
      refuses to be rolled back, if any. */
  function Rollback(n: nat, s: Saga, failAt: Option<nat>): Saga {
    var from := RollbackStart(n, s.row.index);
    if failAt.Some? && failAt.value <= from then
      var j := failAt.value;
      Saga(UpdateRow(s.row, Some(Errored), Some(j), None), s.log + Undos(from, j + 1) + [Undid(j, false)])
    else
      Saga(Row(RolledBack, 0, 0), s.log + Undos(from, 0))
  }

  /** Record an error, and roll back if that is wanted. */
  function Fail(n: nat, s: Saga, rollback: bool, failAt: Option<nat>): Saga {
    var errored := s.(row := s.row.(status := Errored));
    if rollback then Rollback(n, errored, failAt) else errored
  }

  function Progress(n: nat, index: nat): nat
    requires n > 0
  {
    100 * index / n
  }

  /** The current operation finished and the next index is stored. */
  function Advance(n: nat, s: Saga): Saga
    requires s.row.index < n
  {
    var next := s.row.index + 1;
    Saga(Row(s.row.status, next, Progress(n, next)), s.log + [Ran(s.row.index, Done)])
  }

  function Attempted(s: Saga, outcome: Outcome): Saga {
    s.(log := s.log + [Ran(s.row.index, outcome)])
  }

  function Complete(s: Saga): Saga {
    if s.row.status.CompletedSuccessfully? then s
    else s.(row := UpdateRow(s.row, Some(CompletedSuccessfully), None, Some(100)))
  }

  /** Everything that can happen to a migration. The arguments are what the surroundings decide:
      whether automatic rollback is on, and which rollback fails. */
  datatype Action =
    | Trigger
    | StartRefused
    | StartFails
    | StartRuns
    | OpDone
    | OpFails(autoRollback: bool, failAt: Option<nat>)
    | OpLost
    | Finish
    | CrashFound(autoContinue: bool, autoRollback: bool, failAt: Option<nat>)
    | ForceStop(rollback: bool, autoRollback: bool, failAt: Option<nat>)
    | Resume
    | RollBack(failAt: Option<nat>)
    | ForceRollBack(failAt: Option<nat>)

  /** The effect of an action on a required migration of n operations. A request that the migration's
      status does not allow changes nothing. */
  function Step(n: nat, s: Saga, a: Action): Saga {
    var status, atOp := s.row.status, s.row.status.Running? && s.row.index < n;
    match a
    case Trigger => if status.Running? then s else s.(row := s.row.(status := Starting))
    case StartRefused => s
    case StartFails => if status.Running? then s else s.(row := s.row.(status := FailedAtStartup))
    case StartRuns => if status.Running? then s else s.(row := Row(Running, 0, 0))
    case OpDone => if atOp then Advance(n, s) else s
    case OpFails(auto, failAt) => if atOp then Fail(n, Attempted(s, Failed), auto, failAt) else s
    case OpLost => if atOp then Attempted(s, Lost) else s
    case Finish => if status.Running? && s.row.index >= n then Complete(s) else s
    case CrashFound(continue', auto, failAt) =>
      if status.Running? && !continue' then Fail(n, s, auto, failAt) else s
    case ForceStop(rollback, auto, failAt) =>
      if status.Running? then Fail(n, s, rollback && auto, failAt) else s
    case Resume => if status.Errored? then s.(row := s.row.(status := Running)) else s
    case RollBack(failAt) => if status.Errored? then Rollback(n, s, failAt) else s
    case ForceRollBack(failAt) => if status.CompletedSuccessfully? then Rollback(n, s, failAt) else s
  }

  function Run(n: nat, s: Saga, actions: seq<Action>): Saga
    decreases |actions|
  {
    if actions == [] then s else Run(n, Step(n, s, actions[0]), actions[1..])
  }

  /** A migration is triggered and started afresh only where nothing of it is in place. */
  predicate Disciplined(s: Saga, a: Action) {
    a.Trigger? || a.StartFails? || a.StartRuns? ==> Fresh(s.row.status) || s.row.status.Running?
  }

  predicate DisciplinedRun(n: nat, s: Saga, actions: seq<Action>)
    decreases |actions|
  {
    actions == [] || (Disciplined(s, actions[0]) && DisciplinedRun(n, Step(n, s, actions[0]), actions[1..]))
  }

  lemma {:induction false} RunConcat(n: nat, s: Saga, first: seq<Action>, second: seq<Action>)
    ensures Run(n, s, first + second) == Run(n, Run(n, s, first), second)
    decreases |first|
  {
    if first == [] {
      assert first + second == second;
    } else {
      assert (first + second)[1..] == first[1..] + second;
      RunConcat(n, Step(n, s, first[0]), first[1..], second);
    }
  }

  // ----- the index says what is in force -----

  datatype Tag = InForce | NotInForce | Undetermined

  /** What the last thing executed for operation i left behind. */
  function TagOf(log: seq<Event>, i: nat): Tag
    decreases |log|
  {
    if log == [] then NotInForce else
    var last := log[|log| - 1];
    if last.op != i then TagOf(log[..|log| - 1], i) else
    match last
    case Ran(_, outcome) => if outcome.Done? then InForce else Undetermined
    case Undid(_, ok) => if ok then NotInForce else Undetermined
  }

  predicate IndexInv(n: nat, s: Saga) {
    && s.row.index <= n
    && (forall i | 0 <= i < s.row.index :: TagOf(s.log, i) == InForce)
    && (forall i | s.row.index < i < n :: TagOf(s.log, i) == NotInForce)
  }

  predicate SagaInv(n: nat, s: Saga) {
    && IndexInv(n, s)
    && (s.row.status.CompletedSuccessfully? ==> s.row.index == n)
    && (Fresh(s.row.status) ==> s.row.index == 0 && (n > 0 ==> TagOf(s.log, 0) == NotInForce))
  }

  lemma TagAfter(log: seq<Event>, e: Event, i: nat)
    ensures TagOf(log + [e], i) ==
            if e.op != i then TagOf(log, i)
            else if e.Ran? then (if e.outcome.Done? then InForce else Undetermined)
            else if e.ok then NotInForce else Undetermined
  {
    assert (log + [e])[..|log|] == log;
  }

  lemma {:induction false} TagAfterUndos(log: seq<Event>, from: int, to: nat, i: nat)
    ensures TagOf(log + Undos(from, to), i) == if to <= i <= from then NotInForce else TagOf(log, i)
    decreases from - to + 1
  {
    if from < to {
      assert log + Undos(from, to) == log;
    } else {
      assert log + Undos(from, to) == (log + Undos(from, to + 1)) + [Undid(to, true)];
      TagAfter(log + Undos(from, to + 1), Undid(to, true), i);
      TagAfterUndos(log, from, to + 1, i);
    }
  }

  lemma RollbackKeepsSaga(n: nat, s: Saga, failAt: Option<nat>)
    requires IndexInv(n, s)
    ensures SagaInv(n, Rollback(n, s, failAt))
  {
    var from := RollbackStart(n, s.row.index);
    var s' := Rollback(n, s, failAt);
    forall i: nat
      ensures TagOf(s'.log, i) ==
              if s'.row.status.RolledBack? then (if i <= from then NotInForce else TagOf(s.log, i))
              else if i == s'.row.index then Undetermined
              else if s'.row.index < i <= from then NotInForce else TagOf(s.log, i)
    {
      if s'.row.status.RolledBack? {
        TagAfterUndos(s.log, from, 0, i);
      } else {
        var j := failAt.value;
        TagAfterUndos(s.log, from, j + 1, i);
        TagAfter(s.log + Undos(from, j + 1), Undid(j, false), i);
      }
    }
  }

  lemma AttemptKeepsIndex(n: nat, s: Saga, outcome: Outcome)
    requires IndexInv(n, s) && s.row.index < n
    ensures !outcome.Done? ==> IndexInv(n, Attempted(s, outcome))
    ensures outcome.Done? ==> IndexInv(n, Advance(n, s))
  {
    forall i: nat
      ensures TagOf(Attempted(s, outcome).log, i) ==
              if i != s.row.index then TagOf(s.log, i) else if outcome.Done? then InForce else Undetermined
    {
      TagAfter(s.log, Ran(s.row.index, outcome), i);
    }
    assert outcome.Done? ==> Advance(n, s).log == Attempted(s, outcome).log;
  }

  lemma FailKeepsSaga(n: nat, s: Saga, rollback: bool, failAt: Option<nat>)
    requires IndexInv(n, s)
    ensures SagaInv(n, Fail(n, s, rollback, failAt))
  {
    RollbackKeepsSaga(n, s.(row := s.row.(status := Errored)), failAt);
  }

  /** Op successes, failures and crashes, rollbacks that fail half way, resumes and forced stops all
      keep the index truthful. */
  lemma StepKeepsSaga(n: nat, s: Saga, a: Action)
    requires SagaInv(n, s) && Disciplined(s, a)
    ensures SagaInv(n, Step(n, s, a))
  {
    if s.row.index < n {
      AttemptKeepsIndex(n, s, Done);
      AttemptKeepsIndex(n, s, Failed);
      AttemptKeepsIndex(n, s, Lost);
    }
    match a
    case OpFails(auto, failAt) =>
      if s.row.index < n { FailKeepsSaga(n, Attempted(s, Failed), auto, failAt); }
    case CrashFound(_, auto, failAt) => FailKeepsSaga(n, s, auto, failAt);
    case ForceStop(rollback, auto, failAt) => FailKeepsSaga(n, s, rollback && auto, failAt);
    case RollBack(failAt) => RollbackKeepsSaga(n, s, failAt);
    case ForceRollBack(failAt) => RollbackKeepsSaga(n, s, failAt);
    case _ =>
  }

  /** In every reachable state, every operation below the index is in force and none above it is. */
  lemma {:induction false} RunKeepsSaga(n: nat, s: Saga, actions: seq<Action>)
    requires SagaInv(n, s) && DisciplinedRun(n, s, actions)
    ensures SagaInv(n, Run(n, s, actions))
    decreases |actions|
  {
    if actions == [] {
    } else {
      StepKeepsSaga(n, s, actions[0]);
      RunKeepsSaga(n, Step(n, s, actions[0]), actions[1..]);
    }
  }

  /** A fresh start resets the index without undoing anything. From a truthful index, that is right
      if and only if no operation after the first was reached. */
  lemma StartExactly(n: nat, s: Saga)
    requires IndexInv(n, s) && !s.row.status.Running?
    ensures SagaInv(n, Step(n, s, StartRuns)) <==>
            s.row.index == 0 || n == 1 || (s.row.index == 1 && TagOf(s.log, 1) == NotInForce)
  {
    var s' := Step(n, s, StartRuns);
    if s.row.index > 1 {
      assert TagOf(s.log, 1) == InForce;
    }
  }

  /** Nothing checks that: triggering a completed migration again makes the index lie. */
  lemma RetriggerLosesTrackOfOperations()
    ensures var s := Run(2, NEW_SAGA, [StartRuns, OpDone, OpDone, Finish, Trigger, StartRuns]);
            s.row == Row(Running, 0, 0) && TagOf(s.log, 1) == InForce && !SagaInv(2, s)
  {
    var s1 := Step(2, NEW_SAGA, StartRuns);
    var s2 := Step(2, s1, OpDone);
    var s3 := Step(2, s2, OpDone);
    var s4 := Step(2, s3, Finish);
    var s5 := Step(2, s4, Trigger);
    var s6 := Step(2, s5, StartRuns);
    assert s3.log == [Ran(0, Done)] + [Ran(1, Done)];
    TagAfter([Ran(0, Done)], Ran(1, Done), 1);
    var actions := [StartRuns, OpDone, OpDone, Finish, Trigger, StartRuns];
    assert actions[1..] == [OpDone, OpDone, Finish, Trigger, StartRuns];
    calc {
      Run(2, NEW_SAGA, actions);
      Run(2, s1, [OpDone, OpDone, Finish, Trigger, StartRuns]);
      { assert [OpDone, OpDone, Finish, Trigger, StartRuns][1..] == [OpDone, Finish, Trigger, StartRuns]; }
      Run(2, s2, [OpDone, Finish, Trigger, StartRuns]);
      { assert [OpDone, Finish, Trigger, StartRuns][1..] == [Finish, Trigger, StartRuns]; }
      Run(2, s3, [Finish, Trigger, StartRuns]);
      { assert [Finish, Trigger, StartRuns][1..] == [Trigger, StartRuns]; }
      Run(2, s4, [Trigger, StartRuns]);
      { assert [Trigger, StartRuns][1..] == [StartRuns]; }
      Run(2, s5, [StartRuns]);
      { assert [StartRuns][1..] == []; }
      Run(2, s6, []);
      s6;
    }
  }

  // ----- forward runs -----

  /** The operations that finished, in the order in which they did. */
  function Finished(log: seq<Event>): seq<nat>
    decreases |log|
  {
    if log == [] then [] else
    var e := log[|log| - 1];
    Finished(log[..|log| - 1]) + if e.Ran? && e.outcome.Done? then [e.op] else []
  }

  function UpTo(k: nat): seq<nat> {
    seq(k, i => i)
  }

  /** Neither rolls anything back nor loses a worker. */
  predicate ForwardOnly(a: Action) {
    match a
    case OpFails(auto, _) => !auto
    case ForceStop(rollback, auto, _) => !(rollback && auto)
    case CrashFound(continue', auto, _) => continue' || !auto
    case OpLost | RollBack(_) | ForceRollBack(_) => false
    case _ => true
  }

  lemma FinishedAfter(log: seq<Event>, e: Event)
    ensures Finished(log + [e]) == Finished(log) + if e.Ran? && e.outcome.Done? then [e.op] else []
  {
    assert (log + [e])[..|log|] == log;
  }

  lemma StepForward(n: nat, s: Saga, a: Action)
    requires SagaInv(n, s) && Disciplined(s, a) && ForwardOnly(a)
    requires Finished(s.log) == UpTo(s.row.index)
    ensures var s' := Step(n, s, a); Finished(s'.log) == UpTo(s'.row.index)
  {
    var i := s.row.index;
    FinishedAfter(s.log, Ran(i, Done));
    FinishedAfter(s.log, Ran(i, Failed));
    assert UpTo(i + 1) == UpTo(i) + [i];
  }

  /** Without rollbacks and crashes, however often operations fail and are resumed, each finishes
      once and in order: those below the index have, and no other has. */
  lemma {:induction false} ExactlyOnce(n: nat, s: Saga, actions: seq<Action>)
    requires SagaInv(n, s) && DisciplinedRun(n, s, actions)
    requires forall a :: a in actions ==> ForwardOnly(a)
    requires Finished(s.log) == UpTo(s.row.index)
    ensures var s' := Run(n, s, actions);
            && Finished(s'.log) == UpTo(s'.row.index)
            && (s'.row.status.CompletedSuccessfully? ==> Finished(s'.log) == UpTo(n))
    decreases |actions|
  {
    if actions == [] {
    } else {
      StepKeepsSaga(n, s, actions[0]);
      StepForward(n, s, actions[0]);
      ExactlyOnce(n, Step(n, s, actions[0]), actions[1..]);
    }
  }

  /** Successful runs of operations from, ..., to - 1. */
  function Runs(from: nat, to: nat): (events: seq<Event>)
    requires from <= to
  {
    seq(to - from, t requires 0 <= t => Ran(from + t, Done))
  }

  function OpDones(k: nat): seq<Action> {
    seq(k, _ => OpDone)
  }

  lemma {:induction false} RunOpDones(n: nat, s: Saga, k: nat)
    requires s.row.status.Running? && s.row.index + k <= n
    ensures Run(n, s, OpDones(k)) ==
            Saga(if k == 0 then s.row else Row(Running, s.row.index + k, Progress(n, s.row.index + k)),
                 s.log + Runs(s.row.index, s.row.index + k))
    ensures k > 0 ==>
              var row := Run(n, s, OpDones(k)).row;
              row.progress * n <= 100 * row.index < (row.progress + 1) * n
    decreases k
  {
    if k == 0 {
      assert s.log + Runs(s.row.index, s.row.index) == s.log;
    } else {
      var last := s.row.index + k - 1;
      ProgressIsPercentage(n, last + 1);
      assert OpDones(k) == OpDones(k - 1) + [OpDone];
      RunOpDones(n, s, k - 1);
      RunOne(n, s, OpDones(k - 1), OpDone);
      assert Runs(s.row.index, last + 1) == Runs(s.row.index, last) + [Ran(last, Done)];
    }
  }

  /** The progress is how much of a hundred is done, rounded down. */
  lemma ProgressIsPercentage(n: nat, index: nat)
    requires n > 0
    ensures Progress(n, index) * n <= 100 * index < (Progress(n, index) + 1) * n
  {
  }

  lemma RunOne(n: nat, s: Saga, first: seq<Action>, a: Action)
    ensures Run(n, s, first + [a]) == Step(n, Run(n, s, first), a)
  {
    RunConcat(n, s, first, [a]);
    assert [a][1..] == [];
  }

  /** A fresh start that fails at operation k runs 0, ..., k, rolls back k, ..., 0 and ends rolled
      back at index 0. */
  lemma FailedStartIsCompensated(n: nat, s: Saga, k: nat)
    requires !s.row.status.Running? && k < n
    ensures Run(n, s, [StartRuns] + OpDones(k) + [OpFails(true, None)]) ==
            Saga(Row(RolledBack, 0, 0), s.log + Runs(0, k) + [Ran(k, Failed)] + Undos(k, 0))
  {
    var s1 := Step(n, s, StartRuns);
    RunOne(n, s, [StartRuns] + OpDones(k), OpFails(true, None));
    RunConcat(n, s, [StartRuns], OpDones(k));
    RunOne(n, s, [], StartRuns);
    assert [] + [StartRuns] == [StartRuns];
    RunOpDones(n, s1, k);
  }

  /** A run that is force-stopped in operation k is compensated in the same way, whether or not the
      worker got to begin the operation. */
  lemma ForcedStopIsCompensated(n: nat, s: Saga, k: nat, begun: bool)
    requires !s.row.status.Running? && k < n
    ensures Run(n, s, [StartRuns] + OpDones(k) + (if begun then [OpLost] else []) + [ForceStop(true, true, None)]) ==
            Saga(Row(RolledBack, 0, 0), s.log + Runs(0, k) + (if begun then [Ran(k, Lost)] else []) + Undos(k, 0))
  {
    var before := [StartRuns] + OpDones(k);
    RunConcat(n, s, [StartRuns], OpDones(k));
    RunOne(n, s, [], StartRuns);
    assert [] + [StartRuns] == [StartRuns];
    RunOpDones(n, Step(n, s, StartRuns), k);
    RunOne(n, s, before, OpLost);
    if begun {
      RunOne(n, s, before + [OpLost], ForceStop(true, true, None));
    } else {
      assert before + [] == before;
      RunOne(n, s, before, ForceStop(true, true, None));
    }
  }
}
