/** What a migration's operations and their rollbacks do to the data. */
module MigrationCompensation {
  import opened Wrappers
  import opened MigrationRow
  import opened MigrationSaga

  /** tears(x, y): an attempt at fn or rollbackFn that fails may take the data from x to y.
      midway(b, x): x is a state the operation may be in if it was begun on b. */
  datatype Op<!D> = Op(fn: D -> D, rollbackFn: D -> D, tears: (D, D) -> bool, midway: (D, D) -> bool)

  /** The data once the first k operations have each run once, in order. */
  function AfterOps<D>(ops: seq<Op<D>>, initial: D, k: nat): D
    requires k <= |ops|
  {
    if k == 0 then initial else ops[k - 1].fn(AfterOps(ops, initial, k - 1))
  }

  /** The rollback of an operation begun on base undoes it, wherever it got to: from a state that it may
      be in, rolling back restores base, and a failed attempt leads to another such state. */
  ghost predicate Undoable<D(!new)>(op: Op<D>, base: D) {
    && op.midway(base, base)
    && op.midway(base, op.fn(base))
    && (forall x, y :: op.midway(base, x) && op.tears(x, y) ==> op.midway(base, y))
    && (forall x :: op.midway(base, x) ==> op.rollbackFn(x) == base)
  }

  /** Running an operation again finishes it, wherever an earlier attempt on base got to. */
  ghost predicate Rerunnable<D(!new)>(op: Op<D>, base: D) {
    forall x :: op.midway(base, x) ==> op.fn(x) == op.fn(base)
  }

  ghost predicate AllUndoable<D(!new)>(ops: seq<Op<D>>, initial: D) {
    forall i | 0 <= i < |ops| :: UndoableAt(ops, initial, i)
  }

  ghost predicate UndoableAt<D(!new)>(ops: seq<Op<D>>, initial: D, i: nat)
    requires i < |ops|
  {
    Undoable(ops[i], AfterOps(ops, initial, i))
  }

  ghost predicate RerunnableAt<D(!new)>(ops: seq<Op<D>>, initial: D, i: nat)
    requires i < |ops|
  {
    Rerunnable(ops[i], AfterOps(ops, initial, i))
  }

  /** e may take the data from x to y. */
  predicate Effect<D(==)>(ops: seq<Op<D>>, x: D, e: Event, y: D) {
    e.op < |ops| &&
    var op := ops[e.op];
    match e
    case Ran(_, Done) => y == op.fn(x)
    case Ran(_, Failed) => op.tears(x, y)
    case Ran(_, Lost) => y == op.fn(x) || op.tears(x, y)
    case Undid(_, ok) => if ok then y == op.rollbackFn(x) else op.tears(x, y)
  }

  /** data[t] is the data after the first t events of the log. */
  ghost predicate Evolves<D>(ops: seq<Op<D>>, log: seq<Event>, data: seq<D>) {
    |data| == |log| + 1 && forall t :: 0 <= t < |log| ==> EffectAt(ops, log, data, t)
  }

  predicate EffectAt<D(==)>(ops: seq<Op<D>>, log: seq<Event>, data: seq<D>, t: nat)
    requires t < |log| < |data|
  {
    Effect(ops, data[t], log[t], data[t + 1])
  }

  /** The data is what the first row.index operations make of the initial data, with the current
      operation not begun, or somewhere between that and finished. */
  ghost predicate DataInv<D(!new)>(ops: seq<Op<D>>, initial: D, s: Saga, data: D) {
    var i := s.row.index;
    i <= |ops| &&
    var base := AfterOps(ops, initial, i);
    if i == |ops| then data == base
    else ops[i].midway(base, data) && (TagOf(s.log, i) == NotInForce ==> data == base)
  }

  /** Rolling back from, ..., to takes the data back to where operation to began. */
  lemma {:induction false} UndosRestore<D(!new)>(
      ops: seq<Op<D>>, initial: D, before: seq<Event>, from: nat, to: nat, log: seq<Event>, data: seq<D>)
    requires AllUndoable(ops, initial) && Evolves(ops, log, data)
    requires to <= from < |ops| && before + Undos(from, to) <= log
    requires ops[from].midway(AfterOps(ops, initial, from), data[|before|])
    ensures data[|before + Undos(from, to)|] == AfterOps(ops, initial, to)
    decreases from - to
  {
    var last := |before + Undos(from, to + 1)|;
    assert before + Undos(from, to) == before + Undos(from, to + 1) + [Undid(to, true)];
    assert log[last] == Undid(to, true);
    assert EffectAt(ops, log, data, last);
    assert UndoableAt(ops, initial, to);
    if to < from {
      UndosRestore(ops, initial, before, from, to + 1, log, data);
    } else {
      assert last == |before|;
    }
  }

  /** A rollback that stops at j leaves operation j midway; one that does not stop restores the
      initial data. */
  lemma {:induction false} RollbackKeepsData<D(!new)>(
      ops: seq<Op<D>>, initial: D, s: Saga, failAt: Option<nat>, log: seq<Event>, data: seq<D>)
    requires AllUndoable(ops, initial) && Evolves(ops, log, data)
    requires Rollback(|ops|, s, failAt).log <= log
    requires |s.log| < |data| && DataInv(ops, initial, s, data[|s.log|])
    ensures var s' := Rollback(|ops|, s, failAt); DataInv(ops, initial, s', data[|s'.log|])
  {
    var from := RollbackStart(|ops|, s.row.index);
    if from >= 0 {
      assert UndoableAt(ops, initial, from);
      if failAt.Some? && failAt.value <= from {
        var j := failAt.value;
        RollbackStopsMidway(ops, initial, s, j, log, data);
        TagAfter(s.log + Undos(from, j + 1), Undid(j, false), j);
      } else {
        UndosRestore(ops, initial, s.log, from, 0, log, data);
        assert UndoableAt(ops, initial, 0);
      }
    }
  }

  lemma {:induction false} AppliedIsMidway<D(!new)>(ops: seq<Op<D>>, initial: D, j: nat)
    requires AllUndoable(ops, initial) && j < |ops|
    ensures ops[j].midway(AfterOps(ops, initial, j), AfterOps(ops, initial, j + 1))
  {
    assert UndoableAt(ops, initial, j);
  }

  lemma {:induction false} RollbackStopsMidway<D(!new)>(
      ops: seq<Op<D>>, initial: D, s: Saga, j: nat, log: seq<Event>, data: seq<D>)
    requires AllUndoable(ops, initial) && Evolves(ops, log, data)
    requires |s.log| < |data|
    requires var from := RollbackStart(|ops|, s.row.index);
             0 <= j <= from < |ops| && ops[from].midway(AfterOps(ops, initial, from), data[|s.log|])
    requires Rollback(|ops|, s, Some(j)).log <= log
    ensures ops[j].midway(AfterOps(ops, initial, j), data[|Rollback(|ops|, s, Some(j)).log|])
  {
    var from := RollbackStart(|ops|, s.row.index);
    var before := s.log + Undos(from, j + 1);
    if j < from {
      UndosRestore(ops, initial, s.log, from, j + 1, log, data);
      AppliedIsMidway(ops, initial, j);
    } else {
      assert before == s.log;
    }
    FailedUndo(ops, initial, before, j, log, data);
  }

  lemma {:induction false} FailedUndo<D(!new)>(
      ops: seq<Op<D>>, initial: D, before: seq<Event>, j: nat, log: seq<Event>, data: seq<D>)
    requires AllUndoable(ops, initial) && Evolves(ops, log, data)
    requires j < |ops| && before + [Undid(j, false)] <= log
    requires ops[j].midway(AfterOps(ops, initial, j), data[|before|])
    ensures ops[j].midway(AfterOps(ops, initial, j), data[|before| + 1])
  {
    assert UndoableAt(ops, initial, j);
    assert log[|before|] == Undid(j, false);
    assert EffectAt(ops, log, data, |before|);
  }

  lemma {:induction false} FailKeepsData<D(!new)>(
      ops: seq<Op<D>>, initial: D, s: Saga, rollback: bool, failAt: Option<nat>, log: seq<Event>, data: seq<D>)
    requires AllUndoable(ops, initial) && Evolves(ops, log, data)
    requires s.row.status.Running? && Fail(|ops|, s, rollback, failAt).log <= log
    requires |s.log| < |data| && DataInv(ops, initial, s, data[|s.log|])
    ensures var s' := Fail(|ops|, s, rollback, failAt); DataInv(ops, initial, s', data[|s'.log|])
  {
    if rollback {
      RollbackKeepsData(ops, initial, s.(row := s.row.(status := Errored)), failAt, log, data);
    }
  }

  /** a runs the current operation, whether or not to its end. */
  predicate Attempts(n: nat, s: Saga, a: Action) {
    (a.OpDone? || a.OpFails? || a.OpLost?) && s.row.status.Running? && s.row.index < n
  }

  /** The current operation is run again only where that is safe. */
  ghost predicate RetriesSafely<D(!new)>(ops: seq<Op<D>>, initial: D, s: Saga, a: Action) {
    Attempts(|ops|, s, a) && TagOf(s.log, s.row.index) != NotInForce ==> RerunnableAt(ops, initial, s.row.index)
  }

  /** An attempt at the current operation, however it ends, leaves the data where the row says. */
  lemma {:induction false} AttemptKeepsData<D(!new)>(
      ops: seq<Op<D>>, initial: D, s: Saga, outcome: Outcome, log: seq<Event>, data: seq<D>)
    requires AllUndoable(ops, initial) && Evolves(ops, log, data) && IndexInv(|ops|, s)
    requires s.row.status.Running? && s.row.index < |ops| && Attempted(s, outcome).log <= log
    requires RetriesSafely(ops, initial, s, OpDone) && DataInv(ops, initial, s, data[|s.log|])
    ensures outcome.Done? ==> DataInv(ops, initial, Advance(|ops|, s), data[|s.log| + 1])
    ensures !outcome.Done? ==> DataInv(ops, initial, Attempted(s, outcome), data[|s.log| + 1])
  {
    var i := s.row.index;
    assert log[|s.log|] == Ran(i, outcome);
    assert EffectAt(ops, log, data, |s.log|);
    assert UndoableAt(ops, initial, i);
    TagAfter(s.log, Ran(i, outcome), i);
    if i + 1 < |ops| {
      assert UndoableAt(ops, initial, i + 1);
    }
  }

  lemma {:induction false} StepKeepsData<D(!new)>(
      ops: seq<Op<D>>, initial: D, s: Saga, a: Action, log: seq<Event>, data: seq<D>)
    requires AllUndoable(ops, initial) && Evolves(ops, log, data)
    requires SagaInv(|ops|, s) && Disciplined(s, a) && Step(|ops|, s, a).log <= log
    requires |s.log| < |data| && DataInv(ops, initial, s, data[|s.log|]) && RetriesSafely(ops, initial, s, a)
    ensures var s' := Step(|ops|, s, a); DataInv(ops, initial, s', data[|s'.log|])
  {
    var n, i := |ops|, s.row.index;
    if i < n {
      assert UndoableAt(ops, initial, i);
    }
    match a
    case OpDone =>
      if s.row.status.Running? && i < n { AttemptKeepsData(ops, initial, s, Done, log, data); }
    case OpLost =>
      if s.row.status.Running? && i < n { AttemptKeepsData(ops, initial, s, Lost, log, data); }
    case OpFails(auto, failAt) =>
      if s.row.status.Running? && i < n {
        FailGrowsLog(n, Attempted(s, Failed), auto, failAt);
        AttemptKeepsData(ops, initial, s, Failed, log, data);
        FailKeepsData(ops, initial, Attempted(s, Failed), auto, failAt, log, data);
      }
    case CrashFound(continue', auto, failAt) =>
      if s.row.status.Running? && !continue' { FailKeepsData(ops, initial, s, auto, failAt, log, data); }
    case ForceStop(rollback, auto, failAt) =>
      if s.row.status.Running? { FailKeepsData(ops, initial, s, rollback && auto, failAt, log, data); }
    case RollBack(failAt) =>
      if s.row.status.Errored? { RollbackKeepsData(ops, initial, s, failAt, log, data); }
    case ForceRollBack(failAt) =>
      if s.row.status.CompletedSuccessfully? { RollbackKeepsData(ops, initial, s, failAt, log, data); }
    case _ =>
  }

  lemma {:induction false} FailGrowsLog(n: nat, s: Saga, rollback: bool, failAt: Option<nat>)
    ensures s.log <= Fail(n, s, rollback, failAt).log
  {
  }

  lemma {:induction false} RunGrowsLog(n: nat, s: Saga, actions: seq<Action>)
    ensures s.log <= Run(n, s, actions).log
    decreases |actions|
  {
    if actions == [] {
    } else {
      RunGrowsLog(n, Step(n, s, actions[0]), actions[1..]);
      assert s.log <= Step(n, s, actions[0]).log;
    }
  }

  ghost predicate SafeRun<D(!new)>(ops: seq<Op<D>>, initial: D, s: Saga, actions: seq<Action>)
    decreases |actions|
  {
    actions == [] ||
    (RetriesSafely(ops, initial, s, actions[0]) && SafeRun(ops, initial, Step(|ops|, s, actions[0]), actions[1..]))
  }

  /** Whatever happens to a migration, its row tells what state the data is in. */
  lemma {:induction false} RunKeepsData<D(!new)>(
      ops: seq<Op<D>>, initial: D, s: Saga, actions: seq<Action>, log: seq<Event>, data: seq<D>)
    requires AllUndoable(ops, initial) && Evolves(ops, log, data)
    requires SagaInv(|ops|, s) && DisciplinedRun(|ops|, s, actions) && SafeRun(ops, initial, s, actions)
    requires Run(|ops|, s, actions).log <= log
    requires |s.log| < |data| && DataInv(ops, initial, s, data[|s.log|])
    ensures var s' := Run(|ops|, s, actions);
            SagaInv(|ops|, s') && DataInv(ops, initial, s', data[|s'.log|])
    decreases |actions|
  {
    if actions == [] {
    } else {
      var s' := Step(|ops|, s, actions[0]);
      RunGrowsLog(|ops|, s', actions[1..]);
      StepKeepsSaga(|ops|, s, actions[0]);
      StepKeepsData(ops, initial, s, actions[0], log, data);
      RunKeepsData(ops, initial, s', actions[1..], log, data);
    }
  }

  /** After any number of failures, crashes, safe retries and rollbacks: a migration that ends rolled back
      has changed nothing, and one that ends completed has made each of its changes exactly once. */
  lemma {:induction false} SagaIsAllOrNothing<D(!new)>(ops: seq<Op<D>>, actions: seq<Action>, data: seq<D>)
    requires |data| > 0 && AllUndoable(ops, data[0])
    requires DisciplinedRun(|ops|, NEW_SAGA, actions) && SafeRun(ops, data[0], NEW_SAGA, actions)
    requires Evolves(ops, Run(|ops|, NEW_SAGA, actions).log, data)
    ensures var row, final := Run(|ops|, NEW_SAGA, actions).row, data[|data| - 1];
            && (row.status.RolledBack? ==> row.index == 0 && final == data[0])
            && (row.status.CompletedSuccessfully? ==>
                  row.index == |ops| && final == AfterOps(ops, data[0], |ops|))
  {
    if |ops| > 0 {
      assert UndoableAt(ops, data[0], 0);
    }
    RunKeepsData(ops, data[0], NEW_SAGA, actions, Run(|ops|, NEW_SAGA, actions).log, data);
  }

  /** Every run is safe if all operations can be run again. */
  lemma {:induction false} RerunnableIsSafe<D(!new)>(ops: seq<Op<D>>, initial: D, s: Saga, actions: seq<Action>)
    requires forall i | 0 <= i < |ops| :: RerunnableAt(ops, initial, i)
    ensures SafeRun(ops, initial, s, actions)
    decreases |actions|
  {
    if actions == [] {
    } else {
      RerunnableIsSafe(ops, initial, Step(|ops|, s, actions[0]), actions[1..]);
    }
  }

  /** A running migration has not begun its current operation. */
  predicate AtFreshOperation(n: nat, s: Saga) {
    s.row.status.Running? && s.row.index < n ==> TagOf(s.log, s.row.index) == NotInForce
  }

  /** So is every run in which no errored migration is resumed and no worker is lost, whatever the
      operations are: nothing is run twice without being rolled back in between. */
  lemma {:induction false} NoRetryIsSafe<D(!new)>(ops: seq<Op<D>>, initial: D, s: Saga, actions: seq<Action>)
    requires SagaInv(|ops|, s) && DisciplinedRun(|ops|, s, actions) && AtFreshOperation(|ops|, s)
    requires forall a | a in actions :: !a.Resume? && !a.OpLost?
    ensures SafeRun(ops, initial, s, actions)
    decreases |actions|
  {
    if actions == [] {
    } else {
      var a, s' := actions[0], Step(|ops|, s, actions[0]);
      assert !a.Resume? && !a.OpLost?;
      StepKeepsSaga(|ops|, s, a);
      if a.OpDone? && s.row.index < |ops| {
        TagAfter(s.log, Ran(s.row.index, Done), s.row.index + 1);
      }
      assert AtFreshOperation(|ops|, s');
      NoRetryIsSafe(ops, initial, s', actions[1..]);
    }
  }

  // ----- rollbacks that undo more than their own operation -----

  /** What has to be true of the data before the rollback of operation i - 1; of i = 0, after all of them. */
  predicate ReadyBelow<D(==)>(ready: (nat, D) -> bool, initial: D, i: nat, x: D) {
    if i == 0 then x == initial else ready(i - 1, x)
  }

  /** Each rollback makes the data ready for the one that comes after it. */
  ghost predicate LeadsDown<D(!new)>(ops: seq<Op<D>>, ready: (nat, D) -> bool, initial: D) {
    forall i: nat, x: D :: i < |ops| ==> LeadsDownAt(ops, ready, initial, i, x)
  }

  predicate LeadsDownAt<D(==)>(ops: seq<Op<D>>, ready: (nat, D) -> bool, initial: D, i: nat, x: D)
    requires i < |ops|
  {
    ready(i, x) ==> ReadyBelow(ready, initial, i, ops[i].rollbackFn(x))
  }

  /** Then rolling back restores the initial data, also where one rollback removes what several operations
      did and the next one finds nothing left to do. */
  lemma {:induction false} LayeredRollbackRestores<D(!new)>(
      ops: seq<Op<D>>, ready: (nat, D) -> bool, initial: D, before: seq<Event>, from: nat, to: nat,
      log: seq<Event>, data: seq<D>)
    requires LeadsDown(ops, ready, initial) && Evolves(ops, log, data)
    requires to <= from < |ops| && before + Undos(from, to) <= log
    requires ready(from, data[|before|])
    ensures ReadyBelow(ready, initial, to, data[|before + Undos(from, to)|])
    decreases from - to
  {
    var last := |before + Undos(from, to + 1)|;
    assert before + Undos(from, to) == before + Undos(from, to + 1) + [Undid(to, true)];
    assert log[last] == Undid(to, true);
    assert EffectAt(ops, log, data, last);
    assert data[last + 1] == ops[to].rollbackFn(data[last]);
    if to == from {
      assert last == |before|;
    } else {
      LayeredRollbackRestores(ops, ready, initial, before, from, to + 1, log, data);
    }
    assert LeadsDownAt(ops, ready, initial, to, data[last]);
  }

  // ----- one start that goes wrong -----

  lemma {:induction false} RunsApply<D(!new)>(
      ops: seq<Op<D>>, before: seq<Event>, k: nat, log: seq<Event>, data: seq<D>)
    requires k <= |ops| && before + Runs(0, k) <= log && Evolves(ops, log, data)
    ensures data[|before| + k] == AfterOps(ops, data[|before|], k)
  {
    if k == 0 {
    } else {
      assert before + Runs(0, k) == before + Runs(0, k - 1) + [Ran(k - 1, Done)];
      assert log[|before| + (k - 1)] == Ran(k - 1, Done);
      assert EffectAt(ops, log, data, |before| + (k - 1));
      RunsApply(ops, before, k - 1, log, data);
    }
  }

  /** Compensating the operations before k and an unfinished attempt at k, if any, restores the data. */
  lemma {:induction false} CompensationRestores<D(!new)>(
      ops: seq<Op<D>>, before: seq<Event>, k: nat, attempt: seq<Event>, log: seq<Event>, data: seq<D>)
    requires k < |ops| && (attempt == [] || attempt == [Ran(k, Failed)] || attempt == [Ran(k, Lost)])
    requires log == before + Runs(0, k) + attempt + Undos(k, 0) && Evolves(ops, log, data)
    requires AllUndoable(ops, data[|before|])
    ensures data[|data| - 1] == data[|before|]
  {
    RunsApply(ops, before, k, log, data);
    assert UndoableAt(ops, data[|before|], k);
    if attempt != [] {
      assert log[|before| + k] == attempt[0];
      assert EffectAt(ops, log, data, |before| + k);
    }
    UndosRestore(ops, data[|before|], before + Runs(0, k) + attempt, k, 0, log, data);
  }

  function FailedStart(k: nat): seq<Action> {
    [StartRuns] + OpDones(k) + [OpFails(true, None)]
  }

  function StoppedStart(k: nat, begun: bool): seq<Action> {
    [StartRuns] + OpDones(k) + (if begun then [OpLost] else []) + [ForceStop(true, true, None)]
  }

  /** A start that fails at operation k, on whatever data it began, restores that data. */
  lemma {:induction false} FailedStartRestoresData<D(!new)>(ops: seq<Op<D>>, s: Saga, k: nat, data: seq<D>)
    requires !s.row.status.Running? && k < |ops| && |s.log| < |data|
    requires Evolves(ops, Run(|ops|, s, FailedStart(k)).log, data)
    requires AllUndoable(ops, data[|s.log|])
    ensures Run(|ops|, s, FailedStart(k)).row == Row(RolledBack, 0, 0)
    ensures data[|data| - 1] == data[|s.log|]
  {
    FailedStartIsCompensated(|ops|, s, k);
    CompensationRestores(ops, s.log, k, [Ran(k, Failed)], Run(|ops|, s, FailedStart(k)).log, data);
  }

  /** So does a run that is force-stopped there, whether or not the operation was begun. */
  lemma {:induction false} ForcedStopRestoresData<D(!new)>(ops: seq<Op<D>>, s: Saga, k: nat, begun: bool, data: seq<D>)
    requires !s.row.status.Running? && k < |ops| && |s.log| < |data|
    requires Evolves(ops, Run(|ops|, s, StoppedStart(k, begun)).log, data)
    requires AllUndoable(ops, data[|s.log|])
    ensures Run(|ops|, s, StoppedStart(k, begun)).row == Row(RolledBack, 0, 0)
    ensures data[|data| - 1] == data[|s.log|]
  {
    var attempt := if begun then [Ran(k, Lost)] else [];
    ForcedStopIsCompensated(|ops|, s, k, begun);
    CompensationRestores(ops, s.log, k, attempt, Run(|ops|, s, StoppedStart(k, begun)).log, data);
  }

  /** From the data on which operation k began, an attempt at it, if there was one, may lead to y. */
  predicate AttemptLeaves<D(==)>(ops: seq<Op<D>>, initial: D, k: nat, attempt: seq<Event>, y: D)
    requires k < |ops| && |attempt| <= 1
  {
    var base := AfterOps(ops, initial, k);
    if attempt == [] then y == base else Effect(ops, base, attempt[0], y)
  }

  /** Whatever the attempt leaves is ready for the rollback of operation k. */
  ghost predicate ReadyAfter<D(!new)>(
      ops: seq<Op<D>>, ready: (nat, D) -> bool, initial: D, k: nat, attempt: seq<Event>)
    requires k < |ops| && |attempt| <= 1
  {
    forall y | AttemptLeaves(ops, initial, k, attempt, y) :: ready(k, y)
  }

  lemma {:induction false} CompensationLeadsDown<D(!new)>(
      ops: seq<Op<D>>, ready: (nat, D) -> bool, before: seq<Event>, k: nat, attempt: seq<Event>,
      log: seq<Event>, data: seq<D>)
    requires k < |ops| && |attempt| <= 1
    requires log == before + Runs(0, k) + attempt + Undos(k, 0) && Evolves(ops, log, data)
    requires LeadsDown(ops, ready, data[|before|]) && ReadyAfter(ops, ready, data[|before|], k, attempt)
    ensures data[|data| - 1] == data[|before|]
  {
    var initial, begun := data[|before|], before + Runs(0, k) + attempt;
    RunsApply(ops, before, k, log, data);
    if attempt != [] {
      assert log[|before| + k] == attempt[0];
      assert EffectAt(ops, log, data, |before| + k);
    }
    assert AttemptLeaves(ops, initial, k, attempt, data[|begun|]);
    LayeredRollbackRestores(ops, ready, initial, begun, k, 0, log, data);
  }

  /** The same for a start that fails at operation k, where a rollback may undo more than its own
      operation, as long as each one makes the data ready for the next. */
  lemma {:induction false} FailedStartLeadsDown<D(!new)>(
      ops: seq<Op<D>>, ready: (nat, D) -> bool, s: Saga, k: nat, data: seq<D>)
    requires !s.row.status.Running? && k < |ops| && |s.log| < |data|
    requires Evolves(ops, Run(|ops|, s, FailedStart(k)).log, data)
    requires LeadsDown(ops, ready, data[|s.log|]) && ReadyAfter(ops, ready, data[|s.log|], k, [Ran(k, Failed)])
    ensures Run(|ops|, s, FailedStart(k)).row == Row(RolledBack, 0, 0)
    ensures data[|data| - 1] == data[|s.log|]
  {
    FailedStartIsCompensated(|ops|, s, k);
    CompensationLeadsDown(ops, ready, s.log, k, [Ran(k, Failed)], Run(|ops|, s, FailedStart(k)).log, data);
  }

  lemma {:induction false} ForcedStopLeadsDown<D(!new)>(
      ops: seq<Op<D>>, ready: (nat, D) -> bool, s: Saga, k: nat, begun: bool, data: seq<D>)
    requires !s.row.status.Running? && k < |ops| && |s.log| < |data|
    requires Evolves(ops, Run(|ops|, s, StoppedStart(k, begun)).log, data)
    requires LeadsDown(ops, ready, data[|s.log|])
    requires ReadyAfter(ops, ready, data[|s.log|], k, if begun then [Ran(k, Lost)] else [])
    ensures Run(|ops|, s, StoppedStart(k, begun)).row == Row(RolledBack, 0, 0)
    ensures data[|data| - 1] == data[|s.log|]
  {
    var attempt := if begun then [Ran(k, Lost)] else [];
    ForcedStopIsCompensated(|ops|, s, k, begun);
    CompensationLeadsDown(ops, ready, s.log, k, attempt, Run(|ops|, s, StoppedStart(k, begun)).log, data);
  }

  // ----- one operation that fails and is resumed -----

  function ResumedAt(k: nat): seq<Action> {
    [StartRuns] + OpDones(k) + [OpFails(false, None)] + [Resume] + [OpDone]
  }

  lemma {:induction false} ResumedLog(n: nat, k: nat)
    requires k < n
    ensures Run(n, NEW_SAGA, ResumedAt(k)).log == Runs(0, k) + [Ran(k, Failed), Ran(k, Done)]
  {
    var started := [StartRuns] + OpDones(k);
    RunOne(n, NEW_SAGA, [], StartRuns);
    assert [] + [StartRuns] == [StartRuns];
    RunConcat(n, NEW_SAGA, [StartRuns], OpDones(k));
    RunOpDones(n, Step(n, NEW_SAGA, StartRuns), k);
    RunOne(n, NEW_SAGA, started, OpFails(false, None));
    RunOne(n, NEW_SAGA, started + [OpFails(false, None)], Resume);
    RunOne(n, NEW_SAGA, started + [OpFails(false, None)] + [Resume], OpDone);
  }

  /** However the data evolve from the initial ones, they end as the first k operations leave them. */
  ghost predicate EndsAfter<D(!new)>(ops: seq<Op<D>>, initial: D, log: seq<Event>, k: nat)
    requires k <= |ops|
  {
    forall data: seq<D> | Evolves(ops, log, data) && data[0] == initial :: data[|data| - 1] == AfterOps(ops, initial, k)
  }

  /** The data on the way to a failure of operation k that leaves y, and after the second attempt. */
  function RetryHistory<D>(ops: seq<Op<D>>, initial: D, k: nat, y: D): seq<D>
    requires k < |ops|
  {
    seq(k + 1, i requires 0 <= i < k + 1 => AfterOps(ops, initial, i)) + [y, ops[k].fn(y)]
  }

  lemma {:induction false} RetryHistoryEvolves<D(!new)>(ops: seq<Op<D>>, initial: D, k: nat, y: D)
    requires k < |ops| && ops[k].tears(AfterOps(ops, initial, k), y)
    ensures Evolves(ops, Runs(0, k) + [Ran(k, Failed), Ran(k, Done)], RetryHistory(ops, initial, k, y))
  {
    var log, data := Runs(0, k) + [Ran(k, Failed), Ran(k, Done)], RetryHistory(ops, initial, k, y);
    forall t | 0 <= t < |log|
      ensures EffectAt(ops, log, data, t)
    {
      if t < k {
        assert log[t] == Ran(t, Done) && data[t + 1] == AfterOps(ops, initial, t + 1);
      }
    }
  }

  /** Operation k comes to the same from everything that a failed attempt at it may leave. */
  ghost predicate RetriesWell<D(!new)>(ops: seq<Op<D>>, initial: D, k: nat)
    requires k < |ops|
  {
    var base := AfterOps(ops, initial, k);
    forall y | ops[k].tears(base, y) :: ops[k].fn(y) == ops[k].fn(base)
  }

  lemma {:induction false} RetryEnds<D(!new)>(ops: seq<Op<D>>, initial: D, k: nat, log: seq<Event>, data: seq<D>)
    requires k < |ops| && log == Runs(0, k) + [Ran(k, Failed), Ran(k, Done)]
    requires Evolves(ops, log, data) && data[0] == initial
    ensures data[|data| - 1] == ops[k].fn(data[k + 1]) && ops[k].tears(AfterOps(ops, initial, k), data[k + 1])
  {
    RunsApply(ops, [], k, log, data);
    assert EffectAt(ops, log, data, k) && EffectAt(ops, log, data, k + 1);
  }

  /** Resuming a failed operation makes its change exactly once, whatever the failure left, if and only
      if the operation comes to the same from everything that a failure may leave. */
  lemma {:induction false} ResumeExactly<D(!new)>(ops: seq<Op<D>>, initial: D, k: nat)
    requires k < |ops|
    ensures EndsAfter(ops, initial, Run(|ops|, NEW_SAGA, ResumedAt(k)).log, k + 1) <==> RetriesWell(ops, initial, k)
  {
    var log := Runs(0, k) + [Ran(k, Failed), Ran(k, Done)];
    ResumedLog(|ops|, k);
    if EndsAfter(ops, initial, log, k + 1) {
      forall y | ops[k].tears(AfterOps(ops, initial, k), y)
        ensures ops[k].fn(y) == AfterOps(ops, initial, k + 1)
      {
        RetryHistoryEvolves(ops, initial, k, y);
      }
    }
    if RetriesWell(ops, initial, k) {
      forall data: seq<D> | Evolves(ops, log, data) && data[0] == initial
        ensures data[|data| - 1] == AfterOps(ops, initial, k + 1)
      {
        RetryEnds(ops, initial, k, log, data);
      }
    }
  }

  // ----- the contracts can be met, and differ -----

  /** "Create if absent" and "drop if present" for one table. */
  function CreateTable(name: string): Op<set<string>> {
    Op(tables => tables + {name},
       tables => tables - {name},
       (x: set<string>, y: set<string>) => x == y,
       (base: set<string>, x: set<string>) => x == base || x == base + {name})
  }

  lemma {:induction false} CreateTableIsCompensable(name: string, tables: set<string>)
    requires name !in tables
    ensures Undoable(CreateTable(name), tables) && Rerunnable(CreateTable(name), tables)
  {
    assert tables - {name} == tables && (tables + {name}) - {name} == tables;
    assert (tables + {name}) + {name} == tables + {name};
  }

  /** Inserting rows into a table that is empty to begin with, and truncating it. An insertion that fails
      may have inserted some of the rows. */
  function InsertRows<T(==)>(rows: seq<T>): Op<seq<T>> {
    Op(table => table + rows,
       table => [],
       (x: seq<T>, y: seq<T>) => y == [] || x <= y,
       (base: seq<T>, x: seq<T>) => base <= x)
  }

  /** That can be undone, and not be run again. */
  lemma {:induction false} InsertRowsIsOnlyUndoable<T(!new)>(rows: seq<T>)
    requires rows != []
    ensures Undoable(InsertRows(rows), []) && !Rerunnable(InsertRows(rows), [])
  {
    var op := InsertRows(rows);
    assert op.midway([], rows) && |op.fn(rows)| > |op.fn([])|;
  }

  // ----- a backfill -----

  /** A copy of a table, if there is one, and whether new rows still reach the table. */
  datatype Store = Store(copy: Option<seq<int>>, attached: bool)

  function CreateCopy(): Op<Store> {
    Op((x: Store) => if x.copy.None? then x.(copy := Some([])) else x,
       (x: Store) => x.(copy := None),
       (x: Store, y: Store) => x.attached == y.attached,
       (base: Store, x: Store) => true)
  }

  /** However many insertions there are, each one's rollback truncates the whole copy. */
  function InsertInto(rows: seq<int>): Op<Store> {
    Op((x: Store) => if x.copy.Some? then x.(copy := Some(x.copy.value + rows)) else x,
       (x: Store) => if x.copy.Some? then x.(copy := Some([])) else x,
       (x: Store, y: Store) => x.attached == y.attached,
       (base: Store, x: Store) => true)
  }

  function Detach(): Op<Store> {
    Op((x: Store) => x.(attached := false),
       (x: Store) => x.(attached := true),
       (x: Store, y: Store) => x.copy == y.copy,
       (base: Store, x: Store) => true)
  }

  /** Create the copy, insert the old partitions one by one, detach, and insert the last partition. */
  function Backfill(partitions: seq<seq<int>>, last: seq<int>): seq<Op<Store>> {
    [CreateCopy()] + seq(|partitions|, i requires 0 <= i < |partitions| => InsertInto(partitions[i]))
    + [Detach(), InsertInto(last)]
  }

  /** The rollbacks of all operations before the detaching one need the table attached. */
  function BackfillReady(partitions: seq<seq<int>>): (nat, Store) -> bool {
    (i: nat, x: Store) => i <= |partitions| ==> x.attached
  }

  lemma {:induction false} StillAttached(partitions: seq<seq<int>>, last: seq<int>, k: nat)
    requires k <= |partitions| + 1
    ensures AfterOps(Backfill(partitions, last), Store(None, true), k).attached
  {
    if k == 0 {
    } else {
      StillAttached(partitions, last, k - 1);
    }
  }

  lemma BackfillLeadsDown(partitions: seq<seq<int>>, last: seq<int>)
    ensures LeadsDown(Backfill(partitions, last), BackfillReady(partitions), Store(None, true))
  {
    var ops := Backfill(partitions, last);
    forall i: nat, x: Store | i < |ops|
      ensures LeadsDownAt(ops, BackfillReady(partitions), Store(None, true), i, x)
    {
      assert i == 0 ==> ops[i] == CreateCopy();
      assert 0 < i <= |partitions| ==> ops[i] == InsertInto(partitions[i - 1]);
    }
  }

  lemma BackfillIsReady(partitions: seq<seq<int>>, last: seq<int>, k: nat, attempt: seq<Event>)
    requires k < |Backfill(partitions, last)|
    requires attempt == [] || attempt == [Ran(k, Failed)] || attempt == [Ran(k, Lost)]
    ensures ReadyAfter(Backfill(partitions, last), BackfillReady(partitions), Store(None, true), k, attempt)
  {
    var ops := Backfill(partitions, last);
    if k <= |partitions| {
      StillAttached(partitions, last, k);
      assert k == 0 ==> ops[k] == CreateCopy();
      assert k > 0 ==> ops[k] == InsertInto(partitions[k - 1]);
    }
  }

  /** A backfill that fails or is stopped anywhere leaves no copy behind and the table attached, although
      one truncation undoes several insertions. */
  lemma BackfillRestores(
      partitions: seq<seq<int>>, last: seq<int>, s: Saga, k: nat, stopped: bool, begun: bool, data: seq<Store>)
    requires !s.row.status.Running? && k < |partitions| + 3 && |s.log| < |data|
    requires var ops := Backfill(partitions, last);
             Evolves(ops, Run(|ops|, s, if stopped then StoppedStart(k, begun) else FailedStart(k)).log, data)
    requires data[|s.log|] == Store(None, true)
    ensures data[|data| - 1] == Store(None, true)
  {
    var ops, ready := Backfill(partitions, last), BackfillReady(partitions);
    BackfillLeadsDown(partitions, last);
    if stopped {
      BackfillIsReady(partitions, last, k, if begun then [Ran(k, Lost)] else []);
      ForcedStopLeadsDown(ops, ready, s, k, begun, data);
    } else {
      BackfillIsReady(partitions, last, k, [Ran(k, Failed)]);
      FailedStartLeadsDown(ops, ready, s, k, data);
    }
  }

  /** The undo contract does not cover it: the second insertion's truncation undoes the first one, too. */
  lemma BackfillIsNotUndoable(a: int, last: seq<int>)
    ensures !AllUndoable(Backfill([[a]], last), Store(None, true))
  {
    var ops, initial := Backfill([[a]], last), Store(None, true);
    var base := AfterOps(ops, initial, 3);
    assert AfterOps(ops, initial, 1) == Store(Some([]), true);
    assert [] + [a] == [a];
    assert ops[1] == InsertInto([a]) && AfterOps(ops, initial, 2) == Store(Some([a]), true);
    assert ops[2] == Detach();
    assert base == ops[2].fn(AfterOps(ops, initial, 2)) == Store(Some([a]), false);
    assert ops[3] == InsertInto(last) && ops[3].rollbackFn(base) != base;
    assert !UndoableAt(ops, initial, 3);
  }

  // ----- resuming an insertion -----

  function ResumedRun(): seq<Action> {
    [StartRuns, OpFails(false, None), Resume, OpDone, Finish]
  }

  lemma {:induction false} ResumedRunCompletes()
    ensures Run(1, NEW_SAGA, ResumedRun()) ==
            Saga(Row(CompletedSuccessfully, 1, 100), [Ran(0, Failed), Ran(0, Done)])
  {
    var s1 := Step(1, NEW_SAGA, StartRuns);
    var s2 := Step(1, s1, OpFails(false, None));
    var s3 := Step(1, s2, Resume);
    var s4 := Step(1, s3, OpDone);
    assert s4.log == [Ran(0, Failed), Ran(0, Done)];
    assert ResumedRun()[1..] == [OpFails(false, None), Resume, OpDone, Finish];
    assert [OpFails(false, None), Resume, OpDone, Finish][1..] == [Resume, OpDone, Finish];
    assert [Resume, OpDone, Finish][1..] == [OpDone, Finish];
    assert [OpDone, Finish][1..] == [Finish];
    assert Run(1, s4, [Finish]) == Step(1, s4, Finish) by { assert [Finish][1..] == []; }
    assert Run(1, s2, [Resume, OpDone, Finish]) == Run(1, s4, [Finish]);
  }

  /** Resuming such an operation after it failed completes the migration with its rows inserted twice. */
  lemma {:induction false} ResumeInsertsTwice(row: int)
    ensures var ops := [InsertRows([row])];
            && AllUndoable(ops, []) && AfterOps(ops, [], 1) == [row]
            && Run(1, NEW_SAGA, ResumedRun()).row.status.CompletedSuccessfully?
            && Evolves(ops, Run(1, NEW_SAGA, ResumedRun()).log, [[], [row], [row, row]])
  {
    var ops := [InsertRows([row])];
    var log, data := [Ran(0, Failed), Ran(0, Done)], [[], [row], [row, row]];
    ResumedRunCompletes();
    InsertRowsIsOnlyUndoable([row]);
    assert AfterOps(ops, [], 0) == [];
    assert UndoableAt(ops, [], 0);
    assert AfterOps(ops, [], 1) == ops[0].fn([]) == [row];
    assert ops[0].fn([row]) == [row] + [row] == [row, row];
    assert EffectAt(ops, log, data, 0) && EffectAt(ops, log, data, 1);
  }
}
