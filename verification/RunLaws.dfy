/** Laws of whole runs of the real operations, with everything that may go wrong in them. */
module RunLaws {
  import opened Prelude
  import opened Policies
  import opened StorageState
  import opened Lifecycle
  import opened Interruptions
  import opened FileService
  import opened Maintenance
  import opened CommandLaws
  import opened Operations

  /** Wherever an operation stops, the rows are as they were, but for an unpublished one that was
      being deleted. */
  lemma StoppingChangesNoRow(s: Snapshot, command: Command, t: Snapshot, id: nat)
    requires Partway(s, command, t) && id in s.rows
    ensures s.rows[id].status == Published || id in t.rows ==> id in t.rows && t.rows[id] == s.rows[id]
    ensures t.releases == s.releases && t.softwares == s.softwares
  {
    hide OrphansPartly;
    if command.CleanOrphans? {
      OrphansTouchNoRow(s, t);
    }
  }

  lemma OrphansTouchNoRow(s: Snapshot, t: Snapshot)
    requires OrphansPartly(s, t)
    ensures t.rows == s.rows && t.releases == s.releases && t.softwares == s.softwares
  {
    var trace :| TraceLeads(trace, s, t);
    TraceTouchesNoRow(trace);
  }

  lemma {:induction false} TraceTouchesNoRow(trace: seq<Snapshot>)
    requires trace != [] && OrphanTrace(trace)
    ensures var s, t := trace[0], trace[|trace| - 1];
            t.rows == s.rows && t.releases == s.releases && t.softwares == s.softwares
  {
    if |trace| > 1 {
      TraceTouchesNoRow(trace[..|trace| - 1]);
      assert OrphanStep(trace[|trace| - 2], trace[|trace| - 1]);
    }
  }

  /** Over every run, whatever fails and wherever the process stops: a published row is there, and
      published, until it is disabled or archived. */
  lemma {:induction false} PublishedUntilTakenDownInEveryRun(env: Env, trials: seq<Trial>, states: seq<Snapshot>, n: nat, id: nat)
    requires Chain(env, trials, states) && n <= |trials|
    requires id in states[0].rows && states[0].rows[id].status == Published
    requires forall trial :: trial in trials ==> trial.command !in {Disable(id), Archive(id)}
    ensures id in states[n].rows && states[n].rows[id].status == Published
  {
    hide Partway, Apply, Leftover, Quiet;
    if n > 0 {
      PublishedUntilTakenDownInEveryRun(env, trials, states, n - 1, id);
      var s, trial, t := states[n - 1], trials[n - 1], states[n];
      assert Reaches(env, s, trial, t) && trial in trials;
      var command := Effective(s, trial);
      if Partway(s, command, t) {
        StoppingChangesNoRow(s, command, t, id);
      } else if t != s {
        PublicationStays(env, s, command, trial.now, id);
      }
    }
  }

  /** Over every run, as long as a row exists it says the same of its file: path, size, digest,
      extension, type, names and scan. */
  lemma {:induction false} RowsAlwaysDescribeTheSameFile(env: Env, trials: seq<Trial>, states: seq<Snapshot>, n: nat, id: nat)
    requires Chain(env, trials, states) && n <= |trials|
    requires forall i :: 0 <= i <= n ==> id in states[i].rows
    ensures SameUpload(states[n].rows[id], states[0].rows[id])
  {
    hide Partway, Apply, Leftover, Quiet;
    if n > 0 {
      RowsAlwaysDescribeTheSameFile(env, trials, states, n - 1, id);
      var s, trial, t := states[n - 1], trials[n - 1], states[n];
      assert Reaches(env, s, trial, t);
      var command := Effective(s, trial);
      if Partway(s, command, t) {
        StoppingChangesNoRow(s, command, t, id);
      } else if t != s {
        UploadedColumnsStay(env, s, command, trial.now, id);
      }
    }
  }

  /** For every command there is a trial in which nothing goes wrong, so the laws about quiet and
      steady runs speak of something. */
  lemma QuietTrialsExist(command: Command, now: int) returns (trial: Trial)
    ensures trial.command == command && trial.now == now && QuietTrial(trial) && Steady(trial)
  {
    var stream := StreamOracle(n => 0, n => false, n => 1, n => false, true);
    var plan := Plan(false, false, false, false, None, stream);
    var orphans := OrphanPlan(n => "", n => false, n => false, None);
    var walk := WalkOracle(place => 0, place => false, place => false);
    trial := Trial(command, now, plan, orphans, walk, 1);
    assert stream.Healthy();
  }
}
