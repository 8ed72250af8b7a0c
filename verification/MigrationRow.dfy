/** The stored row of one async migration. */
module MigrationRow {
  import opened Wrappers

  datatype Status =
    | NotStarted | Running | CompletedSuccessfully | Errored | RolledBack | Starting | FailedAtStartup

  datatype Row = Row(status: Status, index: nat, progress: nat)

  const NEW_ROW := Row(NotStarted, 0, 0)

  /** Assign the given columns; None leaves a column as it is. */
  function UpdateRow(row: Row, status: Option<Status>, index: Option<nat>, progress: Option<nat>): Row {
    Row(status.GetOr(row.status), index.GetOr(row.index), progress.GetOr(row.progress))
  }

  /** Nothing of the migration is in place in these states, so it may be started from operation 0. */
  predicate Fresh(status: Status) {
    status.NotStarted? || status.Starting? || status.FailedAtStartup? || status.RolledBack?
  }
}
