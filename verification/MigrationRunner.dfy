/** The runner of one async migration, working on its row in place. */
module MigrationRunner {
  import opened Wrappers
  import opened MigrationRow
  import opened MigrationSaga

  class Migration {
    const opCount: nat
    var status: Status
    var currentOperationIndex: nat
    var progress: nat
    /** Everything executed so far. */
    ghost var log: seq<Event>

    constructor (opCount: nat)
      ensures this.opCount == opCount && View() == NEW_SAGA
    {
      this.opCount := opCount;
      status, currentOperationIndex, progress := NotStarted, 0, 0;
      log := [];
    }

    ghost function View(): Saga
      reads this
    {
      Saga(Row(status, currentOperationIndex, progress), log)
    }

    method UpdateAsyncMigration(newStatus: Option<Status>, newIndex: Option<nat>, newProgress: Option<nat>)
      modifies this
      ensures View() == old(View()).(row := UpdateRow(old(View()).row, newStatus, newIndex, newProgress))
      ensures status == (if newStatus.Some? then newStatus.value else old(status))
      ensures currentOperationIndex == (if newIndex.Some? then newIndex.value else old(currentOperationIndex))
      ensures progress == (if newProgress.Some? then newProgress.value else old(progress)) && log == old(log)
    {
      if newProgress.Some? {
        progress := newProgress.value;
      }
      if newIndex.Some? {
        currentOperationIndex := newIndex.value;
      }
      if newStatus.Some? {
        status := newStatus.value;
      }
    }

    /** Run an operation or its rollback; whether that works is up to the database. */
    method ExecuteOp(op: nat, rollback: bool) returns (ok: bool)
      requires op < opCount
      modifies this`log
      ensures log == old(log) + [if rollback then Undid(op, ok) else Ran(op, if ok then Done else Failed)]
    {
      ok := *;
      log := log + [if rollback then Undid(op, ok) else Ran(op, if ok then Done else Failed)];
    }

    method ProcessError(rollback: bool, newStatus: Status, newIndex: Option<nat>, disableAutoRollback: bool)
      returns (ghost failAt: Option<nat>)
      modifies this
      ensures var s := old(View()).(row := UpdateRow(old(View()).row, Some(newStatus), newIndex, None));
              View() == if rollback && !newStatus.FailedAtStartup? && !disableAutoRollback
                        then Rollback(opCount, s, failAt) else s
      ensures !rollback || newStatus.FailedAtStartup? || disableAutoRollback ==>
                && status == newStatus && log == old(log) && progress == old(progress)
                && currentOperationIndex == if newIndex.Some? then newIndex.value else old(currentOperationIndex)
      ensures rollback && !newStatus.FailedAtStartup? && !disableAutoRollback ==>
                status == if failAt.None? then RolledBack else Errored
      decreases if rollback then 2 else 0
    {
      failAt := None;
      UpdateAsyncMigration(Some(newStatus), newIndex, None);
      if !rollback || newStatus == FailedAtStartup || disableAutoRollback {
        return;
      }
      failAt := AttemptMigrationRollback();
    }

    method AttemptMigrationRollback() returns (ghost failAt: Option<nat>)
      modifies this
      ensures View() == Rollback(opCount, old(View()), failAt)
      ensures failAt.None? ==> status == RolledBack && currentOperationIndex == 0 && progress == 0
      ensures failAt.Some? ==>
                && status == Errored && currentOperationIndex == failAt.value && progress == old(progress)
                && failAt.value < opCount && failAt.value <= old(currentOperationIndex)
      decreases 1
    {
      failAt := None;
      ghost var s := View();
      var from := if currentOperationIndex < opCount then currentOperationIndex else opCount - 1;
      var opIndex := from;
      while opIndex >= 0
        invariant -1 <= opIndex <= from < opCount
        invariant View() == s.(log := s.log + Undos(from, opIndex + 1))
      {
        var ok := ExecuteOp(opIndex, true);
        if !ok {
          failAt := Some(opIndex);
          ghost var _ := ProcessError(false, Errored, Some(opIndex), false);
          return;
        }
        assert s.log + Undos(from, opIndex) == s.log + Undos(from, opIndex + 1) + [Undid(opIndex, true)];
        opIndex := opIndex - 1;
      }
      UpdateAsyncMigration(Some(RolledBack), Some(0), Some(0));
    }

    method CompleteMigration()
      modifies this
      ensures View() == Complete(old(View()))
      ensures status == CompletedSuccessfully && currentOperationIndex == old(currentOperationIndex) && log == old(log)
      ensures progress == if old(status) == CompletedSuccessfully then old(progress) else 100
    {
      if status != CompletedSuccessfully {
        UpdateAsyncMigration(Some(CompletedSuccessfully), None, Some(100));
      }
    }

    /** One turn of the driver loop. A resumed run looks its row up by name and status Running; a
        fresh one was handed its row. */
    method RunNextOp(resumed: bool, disableAutoRollback: bool)
      returns (runNext: bool, success: bool, ghost failAt: Option<nat>)
      modifies this
      ensures var s, n := old(View()), opCount;
              if resumed && !s.row.status.Running? then !runNext && !success && View() == s
              else if s.row.index >= n then !runNext && success && View() == Complete(s)
              else !success && View() == if runNext then Advance(n, s)
                                         else Fail(n, Attempted(s, Failed), !disableAutoRollback, failAt)
    {
      failAt := None;
      if resumed && status != Running {
        return false, false, None;
      }
      if currentOperationIndex > opCount - 1 {
        CompleteMigration();
        return false, true, None;
      }
      var ok := ExecuteOp(currentOperationIndex, false);
      if !ok {
        failAt := ProcessError(true, Errored, None, disableAutoRollback);
        return false, false, failAt;
      }
      UpdateAsyncMigration(None, Some(currentOperationIndex + 1), None);
      UpdateAsyncMigration(None, None, Some(Progress(opCount, currentOperationIndex)));
      return true, false, None;
    }

    /** The driver loop: some operations finish, and then the migration completes or one fails. */
    method RunOperations(resumed: bool, disableAutoRollback: bool)
      returns (success: bool, ghost done: nat, ghost failAt: Option<nat>)
      requires resumed || status.Running?
      modifies this
      ensures !old(status).Running? ==> !success && View() == old(View())
      ensures old(status).Running? ==>
                View() == Run(opCount, old(View()),
                              OpDones(done) + [if success then Finish else OpFails(!disableAutoRollback, failAt)])
      ensures old(status).Running? && !success ==> old(currentOperationIndex) + done < opCount
      ensures old(currentOperationIndex) <= opCount ==> old(currentOperationIndex) + done <= opCount
      ensures old(status).Running? && success ==>
                && status.CompletedSuccessfully? && currentOperationIndex >= opCount && progress == 100
                && old(currentOperationIndex) + done == currentOperationIndex
    {
      ghost var s := View();
      done := 0;
      while true
        invariant s.row.status.Running? ==> status.Running?
        invariant s.row.status.Running? ==> View() == Run(opCount, s, OpDones(done))
        invariant !s.row.status.Running? ==> View() == s
        invariant currentOperationIndex == s.row.index + done
        invariant currentOperationIndex <= opCount || done == 0
        decreases opCount - currentOperationIndex
      {
        ghost var before := View();
        var runNext, ok;
        runNext, ok, failAt := RunNextOp(resumed, disableAutoRollback);
        if !runNext {
          RunOne(opCount, s, OpDones(done), if ok then Finish else OpFails(!disableAutoRollback, failAt));
          return ok, done, failAt;
        }
        RunOne(opCount, s, OpDones(done), OpDone);
        assert OpDones(done) + [OpDone] == OpDones(done + 1);
        done := done + 1;
      }
    }

    /** The task body of a fresh start. blocked: another migration is running, or this release may not
        run the migration; ready: services, dependency, precheck and health check are all fine. */
    method StartAsyncMigration(blocked: bool, required: bool, ready: bool, disableAutoRollback: bool)
      returns (success: bool, ghost done: nat, ghost failAt: Option<nat>)
      modifies this
      ensures var s, n := old(View()), opCount;
              if blocked || s.row.status.Running? then !success && View() == s
              else if !required then success && View() == Complete(s)
              else if !ready then !success && View() == Step(n, s, StartFails)
              else View() == Run(n, s, [StartRuns] + OpDones(done)
                                       + [if success then Finish else OpFails(!disableAutoRollback, failAt)])
                   && (if success then done == n else done < n)
      ensures !blocked && old(status) != Running && !required ==> status == CompletedSuccessfully && log == old(log)
      ensures !blocked && old(status) != Running && required && !ready ==>
                status == FailedAtStartup && currentOperationIndex == old(currentOperationIndex) && log == old(log)
    {
      ghost var s := View();
      done, failAt := 0, None;
      if blocked || status == Running {
        return false, done, failAt;
      }
      if !required {
        CompleteMigration();
        return true, done, failAt;
      }
      if !ready {
        failAt := ProcessError(true, FailedAtStartup, None, disableAutoRollback);
        return false, done, failAt;
      }
      UpdateAsyncMigration(Some(Running), Some(0), Some(0));
      ghost var s1 := View();
      success, done, failAt := RunOperations(false, disableAutoRollback);
      ghost var rest := OpDones(done) + [if success then Finish else OpFails(!disableAutoRollback, failAt)];
      assert [StartRuns] + rest == [StartRuns] + OpDones(done) + rest[done..];
      assert ([StartRuns] + rest)[1..] == rest;
      assert View() == Run(opCount, s1, rest) == Run(opCount, s, [StartRuns] + rest);
    }

    method Resume() returns (accepted: bool)
      modifies this
      ensures View() == Step(opCount, old(View()), Action.Resume)
      ensures accepted <==> old(status).Errored?
      ensures status == (if accepted then Running else old(status))
      ensures currentOperationIndex == old(currentOperationIndex) && progress == old(progress) && log == old(log)
    {
      accepted := status == Errored;
      if accepted {
        status := Running;
      }
    }

    /** Called once the worker of the migration is dead. */
    method ForceStopMigration(rollback: bool, disableAutoRollback: bool)
      returns (accepted: bool, ghost failAt: Option<nat>)
      modifies this
      ensures View() == Step(opCount, old(View()), ForceStop(rollback, !disableAutoRollback, failAt))
      ensures accepted <==> old(status).Running?
      ensures accepted && !(rollback && !disableAutoRollback) ==>
                status == Errored && currentOperationIndex == old(currentOperationIndex) && log == old(log)
      ensures accepted && rollback && !disableAutoRollback ==>
                status == (if failAt.None? then RolledBack else Errored)
    {
      accepted, failAt := status == Running, None;
      if accepted {
        failAt := ProcessError(rollback, Errored, None, disableAutoRollback);
      }
    }

    method RollbackMigration(force: bool) returns (accepted: bool, ghost failAt: Option<nat>)
      modifies this
      ensures View() == Step(opCount, old(View()), if force then ForceRollBack(failAt) else RollBack(failAt))
      ensures accepted <==> if force then old(status).CompletedSuccessfully? else old(status).Errored?
      ensures accepted ==> status == (if failAt.None? then RolledBack else Errored)
      ensures accepted && failAt.None? ==> currentOperationIndex == 0 && progress == 0
    {
      accepted, failAt := status == (if force then CompletedSuccessfully else Errored), None;
      if accepted {
        failAt := AttemptMigrationRollback();
      }
    }
  }
}
