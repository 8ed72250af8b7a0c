/** Setting up the async migrations at boot, and letting them start one another. */
module MigrationSetup {
  import opened Wrappers
  import opened MigrationRow
  import opened MigrationFleet

  /** overdue: this release is past the migration's last version. */
  datatype Definition = Definition(name: Name, dependsOn: Option<Name>, hidden: bool, overdue: bool)

  datatype Setup = Ready | TwoRoots | Overdue(name: Name)

  ghost predicate DistinctNames(definitions: seq<Definition>) {
    forall i, j :: 0 <= i < j < |definitions| ==> definitions[i].name != definitions[j].name
  }

  ghost predicate IsDefined(definitions: seq<Definition>, name: Name, dependsOn: Option<Name>) {
    exists i :: 0 <= i < |definitions| && definitions[i].name == name && definitions[i].dependsOn == dependsOn
  }

  /** Where something depends on d, dependentOf names one such migration: the last one defined. */
  ghost predicate Inverts(definitions: seq<Definition>, dependentOf: map<Option<Name>, Name>) {
    && (forall i :: 0 <= i < |definitions| ==> definitions[i].dependsOn in dependentOf)
    && (forall d :: d in dependentOf ==> LastBefore(definitions, |definitions|, d, dependentOf[d]))
  }

  /** Of the first n definitions. */
  ghost predicate AtMostOneRoot(definitions: seq<Definition>, n: nat)
    requires n <= |definitions|
  {
    forall i, j :: 0 <= i < j < n ==> definitions[i].dependsOn.Some? || definitions[j].dependsOn.Some?
  }

  // ----- the chain -----

  ghost predicate ConsistentConfig(cfg: Config) {
    && InvertsDependencies(cfg)
    && (forall m1, m2 | m1 in cfg.dependencyOf && m2 in cfg.dependencyOf ::
          cfg.dependencyOf[m1].None? && cfg.dependencyOf[m2].None? ==> m1 == m2)
  }

  predicate Linked(cfg: Config, before: Name, after: Name) {
    && after in cfg.dependencyOf && cfg.dependencyOf[after] == Some(before)
    && Some(before) in cfg.dependentOf && cfg.dependentOf[Some(before)] == after
  }

  predicate IsRoot(cfg: Config, m: Name) {
    m in cfg.dependencyOf && cfg.dependencyOf[m].None?
  }

  /** Each migration depends on the one before it, and the first on nothing. */
  ghost predicate IsChain(cfg: Config, chain: seq<Name>) {
    && (|chain| > 0 ==> IsRoot(cfg, chain[0]))
    && (forall i, j :: 0 <= i && j == i + 1 && j < |chain| ==> Linked(cfg, chain[i], chain[j]))
  }

  ghost predicate IsFullChain(cfg: Config, chain: seq<Name>) {
    IsChain(cfg, chain) && |chain| > 0 && Some(chain[|chain| - 1]) !in cfg.dependentOf
  }

  /** A chain that came back to one of its names would have to come back to its root, which depends on
      nothing. */
  lemma {:induction false} ChainNeverRepeats(cfg: Config, chain: seq<Name>, i: nat, j: nat)
    requires IsChain(cfg, chain) && i < j < |chain|
    ensures chain[i] != chain[j]
    decreases i
  {
    assert Linked(cfg, chain[j - 1], chain[j]);
    if i == 0 {
    } else {
      assert Linked(cfg, chain[i - 1], chain[i]);
      ChainNeverRepeats(cfg, chain, i - 1, j - 1);
    }
  }

  lemma DistinctNoLonger<T>(s: seq<T>, all: set<T>)
    requires forall i, j :: 0 <= i < j < |s| ==> s[i] != s[j]
    requires forall i :: 0 <= i < |s| ==> s[i] in all
    ensures |s| <= |all|
  {
    if s == [] {
    } else {
      var last := s[|s| - 1];
      DistinctNoLonger(s[..|s| - 1], all - {last});
    }
  }

  lemma ChainIsBounded(cfg: Config, chain: seq<Name>)
    requires IsChain(cfg, chain)
    ensures |chain| <= |cfg.dependencyOf|
  {
    forall i, j | 0 <= i < j < |chain|
      ensures chain[i] != chain[j]
    {
      ChainNeverRepeats(cfg, chain, i, j);
    }
    forall i | 0 <= i < |chain|
      ensures chain[i] in cfg.dependencyOf
    {
      if i > 0 {
        assert Linked(cfg, chain[i - 1], chain[i]);
      }
    }
    DistinctNoLonger(chain, cfg.dependencyOf.Keys);
    assert |cfg.dependencyOf.Keys| == |cfg.dependencyOf|;
  }

  /** Following dependentOf from a chain's last name goes on until nothing depends on it. */
  lemma ExtendChain(cfg: Config, chain: seq<Name>)
    requires ConsistentConfig(cfg) && IsChain(cfg, chain) && |chain| > 0
    requires Some(chain[|chain| - 1]) in cfg.dependentOf
    ensures IsChain(cfg, chain + [cfg.dependentOf[Some(chain[|chain| - 1])]])
  {
    var n, longer := |chain|, chain + [cfg.dependentOf[Some(chain[|chain| - 1])]];
    forall i, j | 0 <= i && j == i + 1 && j < |longer|
      ensures Linked(cfg, longer[i], longer[j])
    {
      if j < n {
        assert longer[i] == chain[i] && longer[j] == chain[j];
      }
    }
  }

  lemma ChainContinues(cfg: Config, chain: seq<Name>) returns (full: seq<Name>)
    requires ConsistentConfig(cfg) && IsChain(cfg, chain) && |chain| > 0
    ensures chain <= full && IsFullChain(cfg, full)
    decreases |cfg.dependencyOf| - |chain|
  {
    var last := Some(chain[|chain| - 1]);
    if last in cfg.dependentOf {
      ExtendChain(cfg, chain);
      ChainIsBounded(cfg, chain + [cfg.dependentOf[last]]);
      full := ChainContinues(cfg, chain + [cfg.dependentOf[last]]);
    } else {
      full := chain;
    }
  }

  /** There is one full chain. */
  lemma {:induction false} ChainsAgree(cfg: Config, a: seq<Name>, b: seq<Name>, i: nat)
    requires ConsistentConfig(cfg) && IsChain(cfg, a) && IsChain(cfg, b) && i < |a| && i < |b|
    ensures a[i] == b[i]
  {
    if i == 0 {
    } else {
      ChainsAgree(cfg, a, b, i - 1);
      assert Linked(cfg, a[i - 1], a[i]) && Linked(cfg, b[i - 1], b[i]);
    }
  }

  // ----- what one boot starts -----

  /** How far the migrations from chain[k] on can start one another: up to the first that is not
      waiting to be started. */
  function EndOfRun(cfg: Config, rows: map<Name, Status>, chain: seq<Name>, k: nat): (j: nat)
    requires k <= |chain|
    ensures k <= j <= |chain|
    ensures forall i | k <= i < j :: Startable(cfg, rows, chain[i])
    ensures j < |chain| ==> !Startable(cfg, rows, chain[j])
    decreases |chain| - k
  {
    if k < |chain| && Startable(cfg, rows, chain[k]) then EndOfRun(cfg, rows, chain, k + 1) else k
  }

  predicate Startable(cfg: Config, rows: map<Name, Status>, m: Name) {
    m in rows && rows[m].NotStarted? && m in cfg.inRange
  }

  lemma {:induction false} StartableInRun(cfg: Config, rows: map<Name, Status>, chain: seq<Name>, k: nat, t: nat)
    requires k <= t < |chain| && t < EndOfRun(cfg, rows, chain, k)
    ensures Startable(cfg, rows, chain[t])
    decreases t - k
  {
    if k < t {
      StartableInRun(cfg, rows, chain, k + 1, t);
    }
  }

  function WithCompleted(rows: map<Name, Status>, names: seq<Name>): map<Name, Status> {
    map m | m in rows :: if m in names then CompletedSuccessfully else rows[m]
  }

  predicate AllCompleted(rows: map<Name, Status>, names: seq<Name>) {
    forall i | 0 <= i < |names| :: names[i] in rows && rows[names[i]].CompletedSuccessfully?
  }

  /** A boot whose checks and operations all pass completes the whole chain if and only if no
      migration that still has to run comes after one that is already there (or that nothing can
      start): completion looks one step ahead and does not skip. */
  lemma ChainCompletesExactly(cfg: Config, rows: map<Name, Status>, chain: seq<Name>, k: nat)
    requires IsChain(cfg, chain) && k <= |chain| && AllCompleted(rows, chain[..k])
    ensures var j := EndOfRun(cfg, rows, chain, k);
            AllCompleted(WithCompleted(rows, chain[k..j]), chain) <==> AllCompleted(rows, chain[j..])
  {
    var j := EndOfRun(cfg, rows, chain, k);
    var after := WithCompleted(rows, chain[k..j]);
    forall i | j <= i < |chain|
      ensures chain[i] !in chain[k..j]
    {
      forall h | k <= h < j
        ensures chain[h] != chain[i]
      {
        ChainNeverRepeats(cfg, chain, h, i);
      }
    }
    if AllCompleted(after, chain) {
      forall i | 0 <= i < |chain[j..]|
        ensures chain[j..][i] in rows && rows[chain[j..][i]].CompletedSuccessfully?
      {
        assert chain[j..][i] == chain[j + i];
      }
    }
    if AllCompleted(rows, chain[j..]) {
      forall i | 0 <= i < |chain|
        ensures chain[i] in after && after[chain[i]].CompletedSuccessfully?
      {
        if i < k {
          assert chain[..k][i] == chain[i];
        } else if i < j {
          assert chain[k..j][i - k] == chain[i];
        } else {
          assert chain[j..][i - j] == chain[i];
        }
      }
    }
  }

  /** A completed migration between two waiting ones: the first is started and completes, the last is never
      started. */
  lemma ChainStopsAtCompleted(cfg: Config, a: Name, b: Name, c: Name)
    requires a != b && b != c && a != c && a in cfg.inRange
    requires cfg.dependencyOf == map[a := None, b := Some(a), c := Some(b)]
    requires cfg.dependentOf == map[None := a, Some(a) := b, Some(b) := c]
    ensures var rows := map[a := NotStarted, b := CompletedSuccessfully, c := NotStarted];
            var chain := [a, b, c];
            && ConsistentConfig(cfg) && Walked(cfg, rows, chain, 0) && EndOfRun(cfg, rows, chain, 0) == 1
            && !AllCompleted(WithCompleted(rows, chain[0..1]), chain)
  {
    var rows := map[a := NotStarted, b := CompletedSuccessfully, c := NotStarted];
    var chain := [a, b, c];
    assert IsChain(cfg, chain);
    assert !Startable(cfg, rows, chain[1]);
    assert EndOfRun(cfg, rows, chain, 1) == 1;
    assert !AllCompleted(rows, chain[1..]) by { assert chain[1..][1] == c; }
    ChainCompletesExactly(cfg, rows, chain, 0);
  }

  lemma NotYetDone(cfg: Config, rows: map<Name, Status>, chain: seq<Name>, k: nat, t: nat, u: nat)
    requires IsChain(cfg, chain) && k <= t <= u < |chain|
    ensures chain[u] !in chain[k..t]
    ensures chain[u] in rows ==> WithCompleted(rows, chain[k..t])[chain[u]] == rows[chain[u]]
  {
    forall i | k <= i < t
      ensures chain[i] != chain[u]
    {
      ChainNeverRepeats(cfg, chain, i, u);
    }
  }

  lemma TurnIsFulfilled(cfg: Config, rows: map<Name, Status>, chain: seq<Name>, k: nat, t: nat)
    requires IsChain(cfg, chain) && k <= t < |chain|
    requires AllCompleted(rows, chain[..k])
    requires forall i | k <= i < t :: chain[i] in rows
    ensures DependencyFulfilled(cfg, WithCompleted(rows, chain[k..t]), chain[t])
  {
    if t > 0 {
      assert Linked(cfg, chain[t - 1], chain[t]);
      if t - 1 < k {
        assert chain[..k][t - 1] == chain[t - 1];
      } else {
        assert chain[k..t][t - 1 - k] == chain[t - 1];
      }
    }
  }

  lemma NoneRuns(rows: map<Name, Status>, names: seq<Name>)
    requires RunningMigrations(rows) == {}
    ensures RunningMigrations(WithCompleted(rows, names)) == {}
  {
    assert RunningMigrations(WithCompleted(rows, names)) <= RunningMigrations(rows);
  }

  /** How the operations of a migration end: all pass, or one fails and is rolled back, not rolled back, or
      not rolled back completely. */
  datatype Ending = Passes | Breaks(rollback: bool, clean: bool)

  /** The first task of the queue: a fresh start that is not refused, and a resumed migration that is
      still running, go on to run their operations. */
  function ProcessFirst(cfg: Config, f: Fleet, checks: Checks, ending: Ending): Fleet
    requires f.queue != []
  {
    var t, begun := f.queue[0], After(cfg, f, StartTask(0, checks));
    if !Is(begun, t.name, Running) || (t.fromStart && Is(f, t.name, Running)) then begun
    else After(cfg, begun, if ending.Passes? then Finish(t.name) else Fail(t.name, ending.rollback, ending.clean))
  }

  /** The task gets as far as running operations. */
  predicate Runs(cfg: Config, f: Fleet, checks: Checks)
    requires f.queue != []
  {
    var t := f.queue[0];
    if t.fromStart then
      && MayStart(cfg, f.rows, t.name) && t.name in cfg.required
      && checks.services && checks.health && DependencyDone(cfg, f.rows, t.name)
    else t.name in f.rows && f.rows[t.name] == Running
  }

  /** A task that runs operations completes its migration and queues the next, or leaves it rolled back or
      errored. A resumed one that does not run changes nothing, and a fresh start is what a start is. */
  lemma ProcessMeaning(cfg: Config, f: Fleet, checks: Checks, ending: Ending)
    requires f.queue != []
    ensures var t, rest := f.queue[0], Fleet(f.rows, f.queue[1..]);
            var completed := f.rows[t.name := CompletedSuccessfully];
            ProcessFirst(cfg, f, checks, ending) ==
            if !Runs(cfg, f, checks) then (if t.fromStart then StartMigration(cfg, rest, t.name, checks) else rest)
            else match ending
              case Passes => Fleet(completed, rest.queue + NextTask(cfg, completed, t.name))
              case Breaks(rollback, clean) =>
                Fleet(f.rows[t.name := if rollback && clean then RolledBack else Errored], rest.queue)
  {
    var t, rest := f.queue[0], Fleet(f.rows, f.queue[1..]);
    assert f.queue[..0] + f.queue[1..] == f.queue[1..];
    StartMeaning(cfg, rest, t.name, checks);
    LimitMeaning(f.rows);
    CompletionMeaning(cfg, rest, t.name);
    CompletionMeaning(cfg, Fleet(f.rows[t.name := Running], rest.queue), t.name);
    assert f.rows[t.name := Running][t.name := CompletedSuccessfully] == f.rows[t.name := CompletedSuccessfully];
  }

  /** An errored migration that is resumed, and whose operations then pass, ends completed, and its successor is
      queued if that waits and automatic starts are on. */
  lemma ResumedCompletes(cfg: Config, rows: map<Name, Status>, m: Name, checks: Checks)
    requires m in rows && rows[m] == Errored
    ensures var resumed := After(cfg, Fleet(rows, []), Resume(m));
            var completed := rows[m := CompletedSuccessfully];
            && resumed.queue == [Task(m, false)]
            && ProcessFirst(cfg, resumed, checks, Passes) == Fleet(completed, NextTask(cfg, completed, m))
  {
    var resumed := After(cfg, Fleet(rows, []), Resume(m));
    RequestMeaning(cfg, Fleet(rows, []), m);
    assert [] + [Task(m, false)] == [Task(m, false)];
    ProcessMeaning(cfg, resumed, checks, Passes);
    assert rows[m := Running][m := CompletedSuccessfully] == rows[m := CompletedSuccessfully];
  }

  lemma TurnCompletes(cfg: Config, rows: map<Name, Status>, m: Name)
    requires RunningMigrations(rows) == {}
    requires Startable(cfg, rows, m) && DependencyFulfilled(cfg, rows, m)
    ensures ProcessFirst(cfg, Fleet(rows, [Task(m, true)]), ALL_PASS, Passes) ==
            CompleteMigration(cfg, Fleet(rows, []), m)
  {
    assert [Task(m, true)][..0] + [Task(m, true)][1..] == [];
    assert rows[m := Running][m := CompletedSuccessfully] == rows[m := CompletedSuccessfully];
  }

  lemma OneMoreCompleted(rows: map<Name, Status>, names: seq<Name>, m: Name)
    requires m in rows
    ensures WithCompleted(rows, names)[m := CompletedSuccessfully] == WithCompleted(rows, names + [m])
  {
  }

  /** With its predecessors completed, chain[t] is queued exactly if it waits. */
  lemma QueuedIfWaiting(cfg: Config, rows: map<Name, Status>, chain: seq<Name>, k: nat, j: nat, t: nat)
    requires IsChain(cfg, chain) && k <= t <= j && t < |chain|
    requires j == EndOfRun(cfg, rows, chain, k) && AllCompleted(rows, chain[..k])
    ensures var after := WithCompleted(rows, chain[k..t]);
            RunNextMigration(cfg, Fleet(after, []), chain[t]) ==
            Fleet(after, if t < j then [Task(chain[t], true)] else [])
  {
    NotYetDone(cfg, rows, chain, k, t, t);
    TurnIsFulfilled(cfg, rows, chain, k, t);
    if t < j {
      StartableInRun(cfg, rows, chain, k, t);
    }
  }

  /** Completing chain[t] queues the next migration of the chain exactly if that waits. */
  lemma {:induction false} CompletionQueuesNext(
      cfg: Config, rows: map<Name, Status>, chain: seq<Name>, k: nat, j: nat, t: nat)
    requires cfg.autoStart && IsFullChain(cfg, chain) && k <= t < j <= |chain|
    requires j == EndOfRun(cfg, rows, chain, k) && AllCompleted(rows, chain[..k])
    ensures CompleteMigration(cfg, Fleet(WithCompleted(rows, chain[k..t]), []), chain[t]) ==
            DrainState(rows, chain, k, j, t + 1)
  {
    CompletedUpTo(cfg, rows, chain, k, t);
    if t + 1 < |chain| {
      assert Linked(cfg, chain[t], chain[t + 1]);
      QueuedIfWaiting(cfg, rows, chain, k, j, t + 1);
    }
  }

  lemma CompletedUpTo(cfg: Config, rows: map<Name, Status>, chain: seq<Name>, k: nat, t: nat)
    requires k <= |chain| && k <= t < EndOfRun(cfg, rows, chain, k)
    ensures WithCompleted(rows, chain[k..t])[chain[t] := CompletedSuccessfully] == WithCompleted(rows, chain[k..t + 1])
  {
    assert chain[k..t + 1] == chain[k..t] + [chain[t]];
    StartableInRun(cfg, rows, chain, k, t);
    OneMoreCompleted(rows, chain[k..t], chain[t]);
  }

  /** Where the drain is when chain[t] is next. */
  function DrainState(rows: map<Name, Status>, chain: seq<Name>, k: nat, j: nat, t: nat): Fleet
    requires k <= t <= j <= |chain|
  {
    Fleet(WithCompleted(rows, chain[k..t]), if t < j then [Task(chain[t], true)] else [])
  }

  /** One migration of the chain is started and completes, and queues the next one if that waits. */
  lemma NextTurn(cfg: Config, rows: map<Name, Status>, chain: seq<Name>, k: nat, j: nat, t: nat)
    requires cfg.autoStart && IsFullChain(cfg, chain) && k <= t < j <= |chain|
    requires j == EndOfRun(cfg, rows, chain, k)
    requires AllCompleted(rows, chain[..k]) && RunningMigrations(rows) == {}
    ensures ProcessFirst(cfg, DrainState(rows, chain, k, j, t), ALL_PASS, Passes) ==
            DrainState(rows, chain, k, j, t + 1)
    ensures chain[k..t + 1] == chain[k..t] + [chain[t]]
  {
    NoneRuns(rows, chain[k..t]);
    NotYetDone(cfg, rows, chain, k, t, t);
    TurnIsFulfilled(cfg, rows, chain, k, t);
    StartableInRun(cfg, rows, chain, k, t);
    TurnCompletes(cfg, WithCompleted(rows, chain[k..t]), chain[t]);
    CompletionQueuesNext(cfg, rows, chain, k, j, t);
  }

  /** chain is the chain from the root, and its first k migrations are the applied ones to skip. */
  ghost predicate Walked(cfg: Config, rows: map<Name, Status>, chain: seq<Name>, k: nat) {
    && IsFullChain(cfg, chain) && k <= |chain| && AllCompleted(rows, chain[..k])
    && (k < |chain| ==> chain[k] !in CompletedMigrations(rows))
  }

  /** What the kickstart leaves in the queue after such a walk. */
  function Kicked(cfg: Config, f: Fleet, chain: seq<Name>, k: nat): Fleet {
    if k < |chain| then RunNextMigration(cfg, f, chain[k]) else f
  }

  lemma KickedExactly(cfg: Config, rows: map<Name, Status>, chain: seq<Name>, k: nat)
    requires Walked(cfg, rows, chain, k)
    ensures Kicked(cfg, Fleet(rows, []), chain, k) ==
            Fleet(rows, if k < EndOfRun(cfg, rows, chain, k) then [Task(chain[k], true)] else [])
  {
    if k < |chain| {
      assert rows == WithCompleted(rows, chain[k..k]);
      TurnIsFulfilled(cfg, rows, chain, k, k);
    }
  }

  // ----- the process-wide state -----

  predicate IsOverdue(d: Definition, applied: set<Name>, ignoreVersion: bool) {
    !ignoreVersion && d.name !in applied && d.overdue
  }

  ghost predicate NoneOverdue(definitions: seq<Definition>, n: nat, applied: set<Name>, ignoreVersion: bool)
    requires n <= |definitions|
  {
    forall i :: 0 <= i < n ==> !IsOverdue(definitions[i], applied, ignoreVersion)
  }

  function CompletedMigrations(rows: map<Name, Status>): set<Name> {
    set m | m in rows && rows[m].CompletedSuccessfully?
  }

  /** The rows once every migration that shows has one. */
  function WithNewRows(rows: map<Name, Status>, definitions: seq<Definition>, n: nat): map<Name, Status>
    requires n <= |definitions|
  {
    if n == 0 then rows else
    var d, before := definitions[n - 1], WithNewRows(rows, definitions, n - 1);
    if d.hidden || d.name in before then before else before[d.name := NotStarted]
  }

  ghost predicate RootFound(definitions: seq<Definition>, n: nat, first: Option<Name>)
    requires n <= |definitions|
  {
    if first.Some? then exists i :: 0 <= i < n && definitions[i].name == first.value && definitions[i].dependsOn.None?
    else forall i :: 0 <= i < n ==> definitions[i].dependsOn.Some?
  }

  lemma RootSoFar(definitions: seq<Definition>, i: nat, first: Option<Name>)
    requires i < |definitions| && AtMostOneRoot(definitions, i) && RootFound(definitions, i, first)
    ensures var d := definitions[i];
            && (d.dependsOn.None? && first.Some? ==> !AtMostOneRoot(definitions, |definitions|))
            && (d.dependsOn.None? && first.None? ==>
                  AtMostOneRoot(definitions, i + 1) && RootFound(definitions, i + 1, Some(d.name)))
            && (d.dependsOn.Some? ==> AtMostOneRoot(definitions, i + 1) && RootFound(definitions, i + 1, first))
  {
  }

  /** dependencyOf knows the first i definitions, and nothing that is not defined. */
  ghost predicate Records(definitions: seq<Definition>, i: nat, dependencyOf: map<Name, Option<Name>>)
    requires i <= |definitions|
  {
    && (forall h :: 0 <= h < i ==> definitions[h].name in dependencyOf)
    && (forall m :: m in dependencyOf ==> IsDefined(definitions, m, dependencyOf[m]))
  }

  function WithDependencies(dependencyOf: map<Name, Option<Name>>, definitions: seq<Definition>, n: nat)
    : map<Name, Option<Name>>
    requires n <= |definitions|
  {
    if n == 0 then dependencyOf
    else WithDependencies(dependencyOf, definitions, n - 1)[definitions[n - 1].name := definitions[n - 1].dependsOn]
  }

  lemma {:induction false} DependenciesRecorded(
      dependencyOf: map<Name, Option<Name>>, definitions: seq<Definition>, n: nat)
    requires n <= |definitions| && Records(definitions, 0, dependencyOf)
    ensures Records(definitions, n, WithDependencies(dependencyOf, definitions, n))
  {
    if n == 0 {
    } else {
      DependenciesRecorded(dependencyOf, definitions, n - 1);
      assert IsDefined(definitions, definitions[n - 1].name, definitions[n - 1].dependsOn);
    }
  }

  /** name is the last of the first i definitions that depends on d. */
  ghost predicate LastBefore(definitions: seq<Definition>, i: nat, d: Option<Name>, name: Name)
    requires i <= |definitions|
  {
    exists h :: 0 <= h < i && definitions[h].dependsOn == d && definitions[h].name == name
                && forall j :: h < j < i ==> definitions[j].dependsOn != d
  }

  ghost predicate StillToCome(definitions: seq<Definition>, i: nat, d: Option<Name>)
    requires i <= |definitions|
  {
    exists h :: i <= h < |definitions| && definitions[h].dependsOn == d
  }

  ghost predicate AllMentioned(definitions: seq<Definition>, dependentOf: map<Option<Name>, Name>) {
    forall d :: d in dependentOf ==> StillToCome(definitions, 0, d)
  }

  lemma InvertOne(definitions: seq<Definition>, i: nat, d: Option<Name>, name: Name)
    requires i < |definitions|
    requires if d == definitions[i].dependsOn then name == definitions[i].name
             else LastBefore(definitions, i, d, name) || StillToCome(definitions, i, d)
    ensures LastBefore(definitions, i + 1, d, name) || StillToCome(definitions, i + 1, d)
  {
    if d != definitions[i].dependsOn && LastBefore(definitions, i, d, name) {
      var h :| 0 <= h < i && definitions[h].dependsOn == d && definitions[h].name == name
               && forall j :: h < j < i ==> definitions[j].dependsOn != d;
      assert forall j :: h < j < i + 1 ==> definitions[j].dependsOn != d;
    }
  }

  /** The configuration that an accepted setup leaves behind. */
  lemma SetupIsConsistent(definitions: seq<Definition>, cfg: Config, first: Option<Name>)
    requires DistinctNames(definitions) && AtMostOneRoot(definitions, |definitions|)
    requires Records(definitions, |definitions|, cfg.dependencyOf) && Inverts(definitions, cfg.dependentOf)
    requires RootFound(definitions, |definitions|, first)
    ensures SetUp(definitions, cfg)
    ensures if first.Some? then IsRoot(cfg, first.value) else !HasRoot(definitions)
  {
    forall i | 0 <= i < |definitions|
      ensures cfg.dependencyOf[definitions[i].name] == definitions[i].dependsOn
    {
      assert IsDefined(definitions, definitions[i].name, cfg.dependencyOf[definitions[i].name]);
    }
    forall d | d in cfg.dependentOf
      ensures cfg.dependentOf[d] in cfg.dependencyOf && cfg.dependencyOf[cfg.dependentOf[d]] == d
    {
      assert LastBefore(definitions, |definitions|, d, cfg.dependentOf[d]);
    }
    forall m1, m2 | IsRoot(cfg, m1) && IsRoot(cfg, m2)
      ensures m1 == m2
    {
      assert IsDefined(definitions, m1, None) && IsDefined(definitions, m2, None);
    }
  }

  /** The rows after the setup are those from before, unchanged, and a waiting one for every other migration
      that shows. */
  ghost predicate OneRowEach(rows: map<Name, Status>, definitions: seq<Definition>, rows': map<Name, Status>) {
    && (forall m :: m in rows ==> m in rows' && rows'[m] == rows[m])
    && (forall i :: 0 <= i < |definitions| && !definitions[i].hidden ==> definitions[i].name in rows')
    && (forall m :: m in rows' && m !in rows ==> rows'[m] == NotStarted && Shows(definitions, m))
  }

  ghost predicate Shows(definitions: seq<Definition>, m: Name) {
    exists i :: 0 <= i < |definitions| && definitions[i].name == m && !definitions[i].hidden
  }

  lemma {:induction false} NewRowsAreNotStarted(rows: map<Name, Status>, definitions: seq<Definition>, n: nat)
    requires n <= |definitions|
    ensures OneRowEach(rows, definitions[..n], WithNewRows(rows, definitions, n))
  {
    if n == 0 {
    } else {
      var before := definitions[..n - 1];
      NewRowsAreNotStarted(rows, definitions, n - 1);
      assert definitions[..n] == before + [definitions[n - 1]];
      forall m | Shows(before, m)
        ensures Shows(definitions[..n], m)
      {
        var i :| 0 <= i < |before| && before[i].name == m && !before[i].hidden;
        assert definitions[..n][i] == before[i];
      }
      assert !definitions[n - 1].hidden ==> definitions[..n][n - 1] == definitions[n - 1];
    }
  }

  lemma AllRows(rows: map<Name, Status>, definitions: seq<Definition>)
    ensures OneRowEach(rows, definitions, WithNewRows(rows, definitions, |definitions|))
  {
    assert definitions[..|definitions|] == definitions;
    NewRowsAreNotStarted(rows, definitions, |definitions|);
  }

  lemma CompletedAsBefore(rows: map<Name, Status>, definitions: seq<Definition>)
    ensures var rows' := WithNewRows(rows, definitions, |definitions|);
            && CompletedMigrations(rows') == CompletedMigrations(rows)
            && RunningMigrations(rows') == RunningMigrations(rows)
  {
    AllRows(rows, definitions);
  }

  ghost predicate SetUp(definitions: seq<Definition>, cfg: Config) {
    && Records(definitions, |definitions|, cfg.dependencyOf)
    && Inverts(definitions, cfg.dependentOf)
    && ConsistentConfig(cfg)
  }

  ghost predicate HasRoot(definitions: seq<Definition>) {
    exists i :: 0 <= i < |definitions| && definitions[i].dependsOn.None?
  }

  /** From the rows at boot: the migrations after the applied ones run in chain order, up to the first
      that nothing can start. The whole chain is done exactly if everything from there on was. */
  ghost predicate Drained(cfg: Config, ready: map<Name, Status>, chain: seq<Name>, k: nat,
                          rows: map<Name, Status>, started: seq<Name>)
  {
    Walked(cfg, ready, chain, k) &&
    var j := EndOfRun(cfg, ready, chain, k);
    && started == chain[k..j]
    && rows == WithCompleted(ready, started)
    && (AllCompleted(rows, chain) <==> AllCompleted(ready, chain[j..]))
  }

  lemma DrainedExactly(cfg: Config, ready: map<Name, Status>, chain: seq<Name>, k: nat)
    requires Walked(cfg, ready, chain, k)
    ensures var done := chain[k..EndOfRun(cfg, ready, chain, k)];
            Drained(cfg, ready, chain, k, WithCompleted(ready, done), done)
  {
    ChainCompletesExactly(cfg, ready, chain, k);
  }

  class AsyncMigrations {
    var rows: map<Name, Status>
    var queue: seq<Task>
    var dependencyOf: map<Name, Option<Name>>
    var dependentOf: map<Option<Name>, Name>
    const inRange: set<Name>
    const required: set<Name>
    const autoStart: bool

    constructor (rows: map<Name, Status>, inRange: set<Name>, required: set<Name>, autoStart: bool)
      ensures View() == Fleet(rows, []) && Cfg() == Config(map[], map[], inRange, required, autoStart)
    {
      this.rows, queue, dependencyOf, dependentOf := rows, [], map[], map[];
      this.inRange, this.required, this.autoStart := inRange, required, autoStart;
    }

    function View(): Fleet
      reads this`rows, this`queue
    {
      Fleet(rows, queue)
    }

    function Cfg(): Config
      reads this`dependencyOf, this`dependentOf
    {
      Config(dependencyOf, dependentOf, inRange, required, autoStart)
    }

    /** The dictionaries are empty or were filled from the same definitions. */
    ghost predicate FilledFrom(definitions: seq<Definition>)
      reads this`dependencyOf, this`dependentOf
    {
      Records(definitions, 0, dependencyOf) && AllMentioned(definitions, dependentOf)
    }

    /** Get or create the row of a migration that shows. */
    method SetupModel(d: Definition)
      modifies this`rows
      ensures rows == if d.hidden || d.name in old(rows) then old(rows) else old(rows)[d.name := NotStarted]
    {
      if !d.hidden && d.name !in rows {
        rows := rows[d.name := NotStarted];
      }
    }

    /** The first loop of the setup: rows, the root, the dependencies. */
    method Register(definitions: seq<Definition>, ignoreVersion: bool) returns (r: Setup, first: Option<Name>)
      requires Records(definitions, 0, dependencyOf)
      modifies this`rows, this`dependencyOf
      ensures var n, applied := |definitions|, CompletedMigrations(old(rows));
              && (r.Ready? <==> AtMostOneRoot(definitions, n) && NoneOverdue(definitions, n, applied, ignoreVersion))
              && (r.TwoRoots? ==> !AtMostOneRoot(definitions, n))
              && (r.Overdue? ==> !NoneOverdue(definitions, n, applied, ignoreVersion))
              && (r.Ready? ==> Records(definitions, n, dependencyOf) && rows == WithNewRows(old(rows), definitions, n)
                               && RootFound(definitions, n, first))
    {
      var applied := CompletedMigrations(rows);
      first := None;
      for i := 0 to |definitions|
        invariant rows == WithNewRows(old(rows), definitions, i)
        invariant NoneOverdue(definitions, i, applied, ignoreVersion)
        invariant AtMostOneRoot(definitions, i)
        invariant RootFound(definitions, i, first)
        invariant dependencyOf == WithDependencies(old(dependencyOf), definitions, i)
      {
        var d := definitions[i];
        RootSoFar(definitions, i, first);
        SetupModel(d);
        assert rows == WithNewRows(old(rows), definitions, i + 1);
        if d.dependsOn.None? {
          if first.Some? {
            return TwoRoots, first;
          }
          first := Some(d.name);
        }
        dependencyOf := dependencyOf[d.name := d.dependsOn];
        if !ignoreVersion && d.name !in applied && d.overdue {
          assert IsOverdue(definitions[i], applied, ignoreVersion);
          return Overdue(d.name), first;
        }
      }
      DependenciesRecorded(old(dependencyOf), definitions, |definitions|);
      return Ready, first;
    }

    /** The second loop of the setup: the inverse of the dependencies. */
    method Invert(definitions: seq<Definition>)
      requires AllMentioned(definitions, dependentOf)
      modifies this`dependentOf
      ensures Inverts(definitions, dependentOf)
    {
      for i := 0 to |definitions|
        invariant forall h :: 0 <= h < i ==> definitions[h].dependsOn in dependentOf
        invariant forall d :: d in dependentOf ==>
                    LastBefore(definitions, i, d, dependentOf[d]) || StillToCome(definitions, i, d)
      {
        ghost var before := dependentOf;
        dependentOf := dependentOf[definitions[i].dependsOn := definitions[i].name];
        forall d | d in dependentOf
          ensures LastBefore(definitions, i + 1, d, dependentOf[d]) || StillToCome(definitions, i + 1, d)
        {
          InvertOne(definitions, i, d, dependentOf[d]);
        }
      }
    }

    method RunNext(m: Name)
      modifies this`queue
      ensures View() == RunNextMigration(Cfg(), old(View()), m)
      ensures queue == old(queue) +
                if m in rows && rows[m] == NotStarted && m in inRange && DependencyDone(Cfg(), rows, m)
                then [Task(m, true)] else []
    {
      if m in rows && m in dependencyOf {
        var d := dependencyOf[m];
        var fulfilled := d.None? || (d.value in rows && rows[d.value] == CompletedSuccessfully);
        if fulfilled && m in inRange && rows[m] == NotStarted {
          queue := queue + [Task(m, true)];
        }
      }
    }

    method CompleteAsyncMigration(m: Name)
      modifies this`rows, this`queue
      ensures View() == CompleteMigration(Cfg(), old(View()), m)
      ensures rows == old(rows)[m := CompletedSuccessfully] && queue == old(queue) + NextTask(Cfg(), rows, m)
    {
      CompletionMeaning(Cfg(), View(), m);
      rows := rows[m := CompletedSuccessfully];
      if autoStart && Some(m) in dependentOf {
        RunNext(dependentOf[Some(m)]);
      }
    }

    method StartAsyncMigration(m: Name, checks: Checks)
      modifies this`rows, this`queue
      ensures View() == StartMigration(Cfg(), old(View()), m, checks)
      ensures !MayStart(Cfg(), old(rows), m) ==> rows == old(rows) && queue == old(queue)
      ensures MayStart(Cfg(), old(rows), m) && m !in required ==>
                rows == old(rows)[m := CompletedSuccessfully] && queue == old(queue) + NextTask(Cfg(), rows, m)
      ensures MayStart(Cfg(), old(rows), m) && m in required ==>
                var fine := checks.services && checks.health && DependencyDone(Cfg(), old(rows), m);
                && queue == old(queue)
                && rows == if checks.services && DependencyUnknown(Cfg(), old(rows), m) then old(rows)
                           else old(rows)[m := if fine then Running else FailedAtStartup]
    {
      StartMeaning(Cfg(), View(), m, checks);
      CompletionMeaning(Cfg(), View(), m);
      if m !in rows || AtLimit(rows) || m !in inRange || rows[m] == Running {
        return;
      }
      if m !in required {
        CompleteAsyncMigration(m);
        return;
      }
      if !checks.services {
        rows := rows[m := FailedAtStartup];
        return;
      }
      if m !in dependencyOf || (dependencyOf[m].Some? && dependencyOf[m].value !in rows) {
        return;
      }
      var d := dependencyOf[m];
      if (d.Some? && rows[d.value] != CompletedSuccessfully) || !checks.health {
        rows := rows[m := FailedAtStartup];
        return;
      }
      rows := rows[m := Running];
    }

    /** The trigger request: refused at the limit and outside the release range, whatever the status. */
    method TriggerRequest(m: Name) returns (accepted: bool)
      requires m in rows
      modifies this`rows, this`queue
      ensures View() == After(Cfg(), old(View()), Trigger(m))
      ensures accepted <==> MayStart(Cfg(), old(rows), m)
      ensures rows == (if accepted then old(rows)[m := Starting] else old(rows))
      ensures queue == old(queue) + (if accepted then [Task(m, true)] else [])
    {
      LimitMeaning(rows);
      if AtLimit(rows) || m !in inRange {
        return false;
      }
      rows := rows[m := Starting];
      queue := queue + [Task(m, true)];
      return true;
    }

    /** The resume request: only for an errored migration, and without asking what else runs. */
    method ResumeRequest(m: Name) returns (accepted: bool)
      requires m in rows
      modifies this`rows, this`queue
      ensures View() == After(Cfg(), old(View()), Resume(m))
      ensures accepted <==> old(rows)[m].Errored?
      ensures rows == (if accepted then old(rows)[m := Running] else old(rows))
      ensures queue == old(queue) + (if accepted then [Task(m, false)] else [])
    {
      if rows[m] != Errored {
        return false;
      }
      rows := rows[m := Running];
      queue := queue + [Task(m, false)];
      return true;
    }

    /** Find the first migration of the chain that is not applied, and try to start it. The walk ends
        because the chain never comes back to a name. */
    method KickstartMigrationIfPossible(first: Name, applied: set<Name>) returns (ghost chain: seq<Name>, ghost k: nat)
      requires ConsistentConfig(Cfg()) && IsRoot(Cfg(), first)
      requires applied == CompletedMigrations(rows)
      modifies this`queue
      ensures Walked(Cfg(), rows, chain, k) && chain[0] == first
      ensures View() == Kicked(Cfg(), old(View()), chain, k)
    {
      var m := first;
      chain := [first];
      ghost var cfg := Cfg();
      ChainIsBounded(cfg, chain);
      while m in applied
        invariant queue == old(queue)
        invariant IsChain(cfg, chain) && |chain| > 0 && chain[0] == first && m == chain[|chain| - 1]
        invariant forall i :: 0 <= i < |chain| - 1 ==> chain[i] in applied
        invariant |chain| <= |cfg.dependencyOf|
        decreases |cfg.dependencyOf| - |chain|
      {
        if Some(m) !in dependentOf {
          assert chain[..|chain|] == chain;
          return chain, |chain|;
        }
        ExtendChain(cfg, chain);
        chain := chain + [dependentOf[Some(m)]];
        ChainIsBounded(cfg, chain);
        m := dependentOf[Some(m)];
      }
      k := |chain| - 1;
      chain := ChainContinues(cfg, chain);
      RunNext(m);
    }

    /** Process the first task of the queue. A fresh start goes through the checks; a resumed migration
        goes on only if it is still running. */
    method ProcessTask(checks: Checks, ending: Ending) returns (m: Name)
      requires queue != []
      modifies this`rows, this`queue
      ensures m == old(queue)[0].name
      ensures View() == ProcessFirst(Cfg(), old(View()), checks, ending)
    {
      var fromStart := queue[0].fromStart;
      m := queue[0].name;
      assert queue[..0] + queue[1..] == queue[1..];
      queue := queue[1..];
      if fromStart {
        var refused := m in rows && rows[m] == Running;
        StartAsyncMigration(m, checks);
        if refused {
          return;
        }
      }
      if m in rows && rows[m] == Running {
        match ending
        case Passes => CompleteAsyncMigration(m);
        case Breaks(rollback, clean) => rows := rows[m := if rollback && clean then RolledBack else Errored];
      }
    }

    /** Resume an errored migration whose task is then processed. */
    method ResumeAndProcess(m: Name, checks: Checks, ending: Ending)
      requires m in rows && rows[m] == Errored && queue == []
      modifies this`rows, this`queue
      ensures ending.Passes? ==>
                rows == old(rows)[m := CompletedSuccessfully] && queue == NextTask(Cfg(), rows, m)
      ensures ending.Breaks? ==>
                && rows == old(rows)[m := if ending.rollback && ending.clean then RolledBack else Errored]
                && queue == []
    {
      ghost var cfg, rows0 := Cfg(), rows;
      var _ := ResumeRequest(m);
      ProcessMeaning(cfg, View(), checks, ending);
      assert rows0[m := Running][m := CompletedSuccessfully] == rows0[m := CompletedSuccessfully];
      assert rows0[m := Running][m := RolledBack] == rows0[m := RolledBack];
      assert rows0[m := Running][m := Errored] == rows0[m := Errored];
      var _ := ProcessTask(checks, ending);
    }

    method DrainQueue(ghost chain: seq<Name>, ghost k: nat, ghost j: nat) returns (started: seq<Name>)
      requires autoStart && IsFullChain(Cfg(), chain) && k <= |chain|
      requires AllCompleted(rows, chain[..k]) && RunningMigrations(rows) == {}
      requires j == EndOfRun(Cfg(), rows, chain, k)
      requires queue == if k < j then [Task(chain[k], true)] else []
      modifies this`rows, this`queue
      ensures View() == Fleet(WithCompleted(old(rows), chain[k..j]), [])
      ensures started == chain[k..j]
    {
      ghost var cfg, rows0, t := Cfg(), rows, k;
      started := [];
      assert chain[k..k] == [];
      assert rows == WithCompleted(rows0, chain[k..k]);
      while queue != []
        invariant k <= t <= j && started == chain[k..t]
        invariant View() == DrainState(rows0, chain, k, j, t)
        decreases j - t
      {
        NextTurn(cfg, rows0, chain, k, j, t);
        var m := ProcessTask(ALL_PASS, Passes);
        started := started + [m];
        t := t + 1;
      }
    }

    /** Both loops of the setup. An accepted configuration has one chain. */
    method RegisterDefinitions(definitions: seq<Definition>, ignoreVersion: bool)
      returns (r: Setup, first: Option<Name>)
      requires DistinctNames(definitions) && FilledFrom(definitions)
      modifies this`rows, this`dependencyOf, this`dependentOf
      ensures var n, applied := |definitions|, CompletedMigrations(old(rows));
              r.Ready? <==> AtMostOneRoot(definitions, n) && NoneOverdue(definitions, n, applied, ignoreVersion)
      ensures r.Ready? ==> SetUp(definitions, Cfg()) && rows == WithNewRows(old(rows), definitions, |definitions|)
      ensures r.Ready? ==> if first.Some? then IsRoot(Cfg(), first.value) else !HasRoot(definitions)
    {
      r, first := Register(definitions, ignoreVersion);
      if r.Ready? {
        Invert(definitions);
        SetupIsConsistent(definitions, Cfg(), first);
      }
    }

    /** Setting up: register, and start the first migration of the chain that can be. */
    method SetupAsyncMigrations(definitions: seq<Definition>, ignoreVersion: bool)
      returns (r: Setup, ghost chain: seq<Name>, ghost k: nat)
      requires DistinctNames(definitions) && FilledFrom(definitions)
      modifies this
      ensures r.Ready? ==> ConsistentConfig(Cfg()) && rows == WithNewRows(old(rows), definitions, |definitions|)
      ensures r.Ready? ==> OneRowEach(old(rows), definitions, rows)
      ensures r.Ready? <==>
                && AtMostOneRoot(definitions, |definitions|)
                && (ignoreVersion || forall i :: 0 <= i < |definitions| && definitions[i].overdue ==>
                      definitions[i].name in old(rows) && old(rows)[definitions[i].name] == CompletedSuccessfully)
      ensures r.Ready? && autoStart && HasRoot(definitions) ==> chain != []
      ensures chain == [] ==> queue == old(queue)
      ensures chain != [] ==>
                r.Ready? && autoStart && Walked(Cfg(), rows, chain, k)
                && View() == Kicked(Cfg(), Fleet(rows, old(queue)), chain, k)
    {
      chain, k := [], 0;
      var applied, first := CompletedMigrations(rows), None;
      r, first := RegisterDefinitions(definitions, ignoreVersion);
      AllRows(old(rows), definitions);
      if r.Ready? && autoStart && first.Some? {
        CompletedAsBefore(old(rows), definitions);
        chain, k := KickstartMigrationIfPossible(first.value, applied);
      }
    }

    /** The kickstart and all that follows from it, with every check and operation passing. */
    method KickstartAndDrain(first: Name, applied: set<Name>)
      returns (started: seq<Name>, ghost chain: seq<Name>, ghost k: nat)
      requires ConsistentConfig(Cfg()) && IsRoot(Cfg(), first) && autoStart
      requires applied == CompletedMigrations(rows) && queue == [] && RunningMigrations(rows) == {}
      modifies this`rows, this`queue
      ensures queue == [] && chain != [] && chain[0] == first
      ensures Drained(Cfg(), old(rows), chain, k, rows, started)
    {
      chain, k := KickstartMigrationIfPossible(first, applied);
      ghost var cfg := Cfg();
      ghost var j := EndOfRun(cfg, rows, chain, k);
      KickedExactly(cfg, rows, chain, k);
      DrainedExactly(cfg, rows, chain, k);
      started := DrainQueue(chain, k, j);
    }
  }
}
