/** Whole runs of the real operations, with transactions and moves that fail, and a process that may
    stop inside any operation and carry on with the next. */
module Operations {
  import opened Prelude
  import opened Signatures
  import opened Policies
  import opened StorageState
  import opened Lifecycle
  import opened Interruptions
  import opened FileService
  import opened Maintenance
  import opened Durability
  import opened Downloads

  /** One command with what goes wrong while it runs. A temporary cleanup takes its age limit and
      its file times from here. */
  datatype Trial = Trial(command: Command, now: int, plan: Plan, orphans: OrphanPlan, walk: WalkOracle, maxAge: int)

  /** The process keeps running during the trial, and compensation works. */
  predicate Steady(trial: Trial) {
    trial.plan.Steady() && trial.orphans.stop == None
  }

  /** Nothing goes wrong during the trial, and the names it generates are free. */
  ghost predicate Quiet(s: Snapshot, trial: Trial) {
    && trial.plan.Quiet()
    && (trial.command.Upload? ==> UploadPlace(trial.command.request.token) !in s.disk.files)
    && (trial.command.CleanOrphans? ==> trial.orphans.Quiet(s.disk.files))
  }

  /** The command as it is carried out: a temporary cleanup deletes the stale files it can unlink. */
  function Effective(s: Snapshot, trial: Trial): Command {
    match trial.command
    case CleanTemporary(_) =>
      CleanTemporary(if trial.maxAge <= 0 then {}
                     else Unlinkable(StaleFiles(s.disk.files, trial.walk, trial.now - trial.maxAge), trial.walk))
    case other => other
  }

  /** Where a trial can lead: to the state of the whole operation, back to where it was, or to one of
      the states in which it may stop. A steady trial stops in none of these, but may leave something
      behind; a quiet one carries its command out. */
  ghost predicate Reaches(env: Env, s: Snapshot, trial: Trial, t: Snapshot) {
    var command := Effective(s, trial);
    && (t == s || Apply(env, s, command, trial.now) == Success(t) || Partway(s, command, t))
    && (Steady(trial) ==> t == s || Apply(env, s, command, trial.now) == Success(t) || Leftover(s, command, t))
    && (Quiet(s, trial) ==> t == After(env, s, Step(command, trial.now)))
  }

  ghost predicate Chain(env: Env, trials: seq<Trial>, states: seq<Snapshot>) {
    && |states| == |trials| + 1
    && forall i :: 0 <= i < |trials| ==> Reaches(env, states[i], trials[i], states[i + 1])
  }

  // ---- The real operations ----

  /** Status changes and uploads. */
  method ExecuteOnFile(hub: Hub, trial: Trial) returns (outcome: Outcome)
    requires hub.Valid()
    requires trial.command.Upload? || trial.command.Review? || trial.command.Publish? || trial.command.Disable?
          || trial.command.Archive? || trial.command.RestoreReady? || trial.command.SetVisibility?
    requires trial.command.Upload? ==> trial.command.maxSize == hub.maxSize
    modifies hub`rows, hub`files, hub`origin
    ensures hub.Valid()
    ensures Reaches(hub.env, old(hub.State()), trial, hub.State())
    ensures outcome == Done ==> Apply(hub.env, old(hub.State()), trial.command, trial.now) == Success(hub.State())
    ensures outcome.Raised? && Steady(trial) && old(Fresh(hub.State(), trial.command)) ==> hub.State() == old(hub.State())
    ensures Steady(trial) ==> outcome == Done || outcome.Raised?
    ensures Quiet(old(hub.State()), trial) ==> outcome == Expected(Apply(hub.env, old(hub.State()), trial.command, trial.now))
  {
    hide Survives, WellFormed, AtomicUpload, AtomicReview, AtomicPublish, AtomicTransition, AtomicRestoreReady, AtomicSetVisibility,
      UploadOnly, UploadRemovesOther, MovedOnly;
    match trial.command
    case Upload(r, _) => outcome := hub.UploadReleaseFile(r, trial.plan);
    case Review(id, target) => outcome := hub.ReviewStatus(id, target, trial.now, trial.plan);
    case Publish(id) => outcome := hub.Publish(id, trial.now, trial.plan);
    case Disable(id) => outcome := hub.TransitionWithStorageCheck(id, Disabled, trial.now, trial.plan);
    case Archive(id) => outcome := hub.TransitionWithStorageCheck(id, Archived, trial.now, trial.plan);
    case RestoreReady(id) => outcome := hub.RestoreReady(id, trial.now, trial.plan);
    case SetVisibility(id, visibility) => outcome := hub.SetFileVisibility(id, visibility, trial.plan);
  }

  /** Deletions, counters, parents and maintenance. */
  method ExecuteOther(hub: Hub, downloads: DownloadService, trial: Trial)
    requires hub.Valid() && downloads.hub == hub
    requires trial.command.DeleteMetadata? || trial.command.PermanentlyDelete? || trial.command.SetParents?
          || trial.command.RecordDownload? || trial.command.RecordBlocked? || trial.command.CleanOrphans?
          || trial.command.CleanTemporary?
    modifies hub`rows, hub`releases, hub`softwares, hub`files, hub`origin, hub`abandoned, hub.daily
    ensures hub.Valid()
    ensures Reaches(hub.env, old(hub.State()), trial, hub.State())
  {
    hide Survives, WellFormed, Consistent, AtomicDeleteMetadata, AtomicPermanentlyDelete, AtomicSetParents, OrphansCleaned, TemporaryCleaned,
      OrphansPartly, StagedOnly, Unlinkable, StaleFiles, RemovesStale, Accounts, Verified;
    match trial.command {
      case DeleteMetadata(id) =>
        var outcome := hub.DeleteMetadata(id, trial.plan);
      case PermanentlyDelete(id, token) =>
        ExecutePermanentDeletion(hub, id, token, trial);
      case SetParents(releases, softwares) =>
        hub.SetParents(releases, softwares);
      case RecordDownload(id, day) =>
        if id in hub.rows {
          var ok := downloads.RecordAuthorizedStart(id, day, trial.plan.commitFails);
        }
      case RecordBlocked(id, day) =>
        if id in hub.rows {
          downloads.RecordBlocked(id, day, trial.plan.commitFails);
        }
      case CleanOrphans =>
        var report := CleanupOrphans(hub, false, trial.orphans);
      case CleanTemporary(_) =>
        NothingCleaned(hub.Storage());
        var report := CleanupTemporaryFiles(hub, trial.maxAge, trial.now, false, trial.walk);
    }
  }

  lemma NothingCleaned(d: Disk)
    ensures TemporaryCleaned(d, {}) == d
  {
    assert d.files - {} == d.files;
  }

  method ExecutePermanentDeletion(hub: Hub, id: nat, token: string, trial: Trial)
    requires hub.Valid() && trial.command == PermanentlyDelete(id, token)
    modifies hub`rows, hub`files, hub`origin, hub.daily
    ensures hub.Valid()
    ensures Reaches(hub.env, old(hub.State()), trial, hub.State())
  {
    hide Survives, WellFormed, AtomicPermanentlyDelete, StagedOnly;
    var outcome := hub.PermanentlyDelete(id, token, trial.plan);
  }

  /** One trial. */
  method Execute(hub: Hub, downloads: DownloadService, trial: Trial)
    requires hub.Valid() && downloads.hub == hub
    requires trial.command.Upload? ==> trial.command.maxSize == hub.maxSize
    modifies hub`rows, hub`releases, hub`softwares, hub`files, hub`origin, hub`abandoned, hub.daily
    ensures hub.Valid()
    ensures Reaches(hub.env, old(hub.State()), trial, hub.State())
    ensures old(Survives(hub.env, hub.rows, hub.Storage()) && Fresh(hub.State(), trial.command)) ==>
              Survives(hub.env, hub.rows, hub.Storage())
    ensures Steady(trial) && old(Consistent(hub.env, hub.State()) && Fresh(hub.State(), trial.command)) ==>
              Consistent(hub.env, hub.State())
  {
    hide Reaches, Survives, Consistent, Fresh, Records, Steady;
    ghost var before := hub.State();
    var c := trial.command;
    if c.Upload? || c.Review? || c.Publish? || c.Disable? || c.Archive? || c.RestoreReady? || c.SetVisibility? {
      var outcome := ExecuteOnFile(hub, trial);
    } else {
      ExecuteOther(hub, downloads, trial);
    }
    if Fresh(before, trial.command) {
      TrialIsDurable(hub.env, before, trial, hub.State());
      if Steady(trial) && Consistent(hub.env, before) {
        SteadyTrialIsConsistent(hub.env, before, trial, hub.State());
      }
    }
  }

  // ---- Names ----

  /** The names of uploads are new: each path and token is unlike those of the other uploads, and
      nothing stored at the start has them. */
  ghost predicate NewNames(s: Snapshot, trials: seq<Trial>) {
    && AbsentFrom(s, trials, 0)
    && forall i, j :: 0 <= i < j < |trials| && trials[i].command.Upload? && trials[j].command.Upload? ==>
         OtherNames(trials[i].command.request, trials[j].command.request)
  }

  predicate OtherNames(r: UploadRequest, other: UploadRequest) {
    r.path != other.path && r.token != other.token
  }

  ghost predicate AbsentFrom(s: Snapshot, trials: seq<Trial>, n: nat) {
    forall i :: n <= i < |trials| && trials[i].command.Upload? ==> Absent(s.disk, trials[i].command.request)
  }

  ghost predicate Absent(d: Disk, r: UploadRequest) {
    UploadPlace(r.token) !in d.files && forall place :: !IsCopyOf(d, place, r.path)
  }

  lemma UploadPlacesDiffer(a: string, b: string)
    requires a != b
    ensures UploadPlace(a) != UploadPlace(b)
  {
    assert (a + ".upload")[..|a|] == a && (b + ".upload")[..|b|] == b;
  }

  lemma RemovalKeepsAbsent(d: Disk, e: Disk, r: UploadRequest)
    requires Absent(d, r) && e.files.Keys <= d.files.Keys
    requires forall place :: place in e.origin ==> place in d.origin && e.origin[place] == d.origin[place]
    ensures Absent(e, r)
  {
    forall place
      ensures !IsCopyOf(e, place, r.path)
    {
      assert !IsCopyOf(d, place, r.path);
    }
  }

  lemma MoveKeepsAbsent(d: Disk, src: Place, dst: Place, r: UploadRequest)
    requires Absent(d, r) && CanMove(d, src, dst) && src.Stored?
    requires IsStagingPlace(dst) || (dst.Stored? && dst.path == src.path)
    ensures Absent(Moved(d, src, dst), r)
  {
    forall place
      ensures !IsCopyOf(Moved(d, src, dst), place, r.path)
    {
      assert !IsCopyOf(d, place, r.path) && !IsCopyOf(d, src, r.path);
    }
  }

  lemma WriteKeepsAbsent(d: Disk, place: Place, data: Bytes, r: UploadRequest, other: UploadRequest)
    requires Absent(d, r) && WellFormed(d) && OtherNames(r, other)
    requires place == UploadPlace(other.token) || place == Stored(Quarantine, other.path)
    ensures Absent(WithFile(d, place, data), r)
  {
    UploadPlacesDiffer(r.token, other.token);
    assert !IsStagingPlace(UploadPlace(other.token));
    forall p
      ensures !IsCopyOf(WithFile(d, place, data), p, r.path)
    {
      assert !IsCopyOf(d, p, r.path);
    }
  }

  lemma {:induction false} TraceKeepsAbsent(trace: seq<Snapshot>, r: UploadRequest)
    requires trace != [] && OrphanTrace(trace) && Absent(trace[0].disk, r)
    ensures Absent(trace[|trace| - 1].disk, r)
  {
    hide Absent;
    if |trace| > 1 {
      var s, t := trace[|trace| - 2], trace[|trace| - 1];
      TraceKeepsAbsent(trace[..|trace| - 1], r);
      assert OrphanStep(s, t);
      var place, staged :| OrphanStepAt(s, place, staged, t);
      MoveKeepsAbsent(s.disk, place, staged, r);
      RemovalKeepsAbsent(s.disk, Unlinked(s.disk, place), r);
    }
  }

  /** A whole operation stores nothing under a name that only another upload uses. */
  lemma ApplyKeepsAbsent(env: Env, s: Snapshot, command: Command, now: int, r: UploadRequest)
    requires Absent(s.disk, r) && WellFormed(s.disk) && Apply(env, s, command, now).Success?
    requires command.Upload? ==> OtherNames(r, command.request)
    ensures Absent(Apply(env, s, command, now).value.disk, r)
  {
    hide Absent, Transitioned, BarrierFor, Moved, StoredMimeType, AssessSample, AtomicPublish, AtomicRestoreReady;
    match command
    case Upload(other, _) => WriteKeepsAbsent(s.disk, Stored(Quarantine, other.path), other.data, r, other);
    case Publish(id) => MoveChangeKeepsAbsent(env, s, id, now, r);
    case RestoreReady(id) => MoveChangeKeepsAbsent(env, s, id, now, r);
    case _ => RemovalKeepsAbsent(s.disk, Apply(env, s, command, now).value.disk, r);
  }

  lemma MoveChangeKeepsAbsent(env: Env, s: Snapshot, id: nat, now: int, r: UploadRequest)
    requires Absent(s.disk, r)
    ensures AtomicPublish(env, s, id, now).Success? ==> Absent(AtomicPublish(env, s, id, now).value.disk, r)
    ensures AtomicRestoreReady(env, s, id, now).Success? ==> Absent(AtomicRestoreReady(env, s, id, now).value.disk, r)
  {
    hide Absent, Transitioned, BarrierFor, Moved;
    if AtomicPublish(env, s, id, now).Success? {
      TransitionedIsSameFile(s, id, Published, now);
      MoveKeepsAbsent(s.disk, Stored(Quarantine, s.rows[id].path), Stored(SoftwareArea, s.rows[id].path), r);
    }
    if AtomicRestoreReady(env, s, id, now).Success? {
      TransitionedIsSameFile(s, id, Ready, now);
      if Verified(env, s.disk.files, s.rows[id], false).value == SoftwareArea {
        MoveKeepsAbsent(s.disk, Stored(SoftwareArea, s.rows[id].path), Stored(Quarantine, s.rows[id].path), r);
      }
    }
  }

  lemma PartwayKeepsAbsent(s: Snapshot, command: Command, t: Snapshot, r: UploadRequest)
    requires Absent(s.disk, r) && WellFormed(s.disk) && Partway(s, command, t)
    requires command.Upload? ==> OtherNames(r, command.request)
    ensures Absent(t.disk, r)
  {
    hide Absent, OrphansPartly, Moved;
    match command
    case Upload(other, _) =>
      if UploadRemovesOther(s, other, t) {
        RemovalKeepsAbsent(s.disk, t.disk, r);
      } else if t == s.(disk := WithFile(s.disk, Stored(Quarantine, other.path), other.data)) {
        WriteKeepsAbsent(s.disk, Stored(Quarantine, other.path), other.data, r, other);
      } else {
        var written :| written <= other.data && t == s.(disk := WithFile(s.disk, UploadPlace(other.token), written));
        WriteKeepsAbsent(s.disk, UploadPlace(other.token), written, r, other);
      }
    case Publish(id) => MoveKeepsAbsent(s.disk, Stored(Quarantine, s.rows[id].path), Stored(SoftwareArea, s.rows[id].path), r);
    case RestoreReady(id) => MoveKeepsAbsent(s.disk, Stored(SoftwareArea, s.rows[id].path), Stored(Quarantine, s.rows[id].path), r);
    case PermanentlyDelete(id, token) =>
      MoveKeepsAbsent(s.disk, Stored(Locate(s.disk.files, s.rows[id].path).value, s.rows[id].path), StagingPlace(token), r);
    case CleanOrphans =>
      OrphansKeepAbsent(s, t, r);
  }

  lemma OrphansKeepAbsent(s: Snapshot, t: Snapshot, r: UploadRequest)
    requires Absent(s.disk, r) && OrphansPartly(s, t)
    ensures Absent(t.disk, r)
  {
    hide Absent;
    var trace :| TraceLeads(trace, s, t);
    TraceKeepsAbsent(trace, r);
  }

  /** A trial uses up its own names and no others. */
  lemma NamesStayNew(env: Env, s: Snapshot, trials: seq<Trial>, n: nat, t: Snapshot)
    requires n < |trials| && Reaches(env, s, trials[n], t) && WellFormed(s.disk)
    requires AbsentFrom(s, trials, n) && DistinctFrom(trials, n)
    ensures AbsentFrom(t, trials, n + 1)
  {
    hide Absent, Partway, Apply, Quiet, Leftover;
    var command := Effective(s, trials[n]);
    forall i | n + 1 <= i < |trials| && trials[i].command.Upload?
      ensures Absent(t.disk, trials[i].command.request)
    {
      var r := trials[i].command.request;
      assert command.Upload? ==> OtherNames(r, command.request);
      if Partway(s, command, t) {
        PartwayKeepsAbsent(s, command, t, r);
      } else if t != s {
        ApplyKeepsAbsent(env, s, command, trials[n].now, r);
      }
    }
  }

  ghost predicate DistinctFrom(trials: seq<Trial>, n: nat) {
    forall i :: n < i < |trials| && trials[n].command.Upload? && trials[i].command.Upload? ==>
      OtherNames(trials[n].command.request, trials[i].command.request)
  }

  // ---- Every run ----

  /** One trial keeps the bytes and the records, wherever it ends. */
  lemma TrialIsDurable(env: Env, s: Snapshot, trial: Trial, t: Snapshot)
    requires Reaches(env, s, trial, t) && Fresh(s, trial.command)
    ensures Survives(env, s.rows, s.disk) ==> Survives(env, t.rows, t.disk)
    ensures Records(env, s) ==> Records(env, t)
  {
    hide Survives, Records, Apply, Partway, Fresh, Quiet, Leftover;
    var command := Effective(s, trial);
    EffectiveIsFresh(s, trial);
    if Partway(s, command, t) {
      if Survives(env, s.rows, s.disk) {
        PartwayKeepsSurvival(env, s, command, t);
      }
      if Records(env, s) {
        PartwayKeepsRecords(env, s, command, t);
      }
    } else if t != s {
      if Survives(env, s.rows, s.disk) {
        ApplyKeepsSurvival(env, s, command, trial.now);
      }
      if Records(env, s) {
        ApplyKeepsRecords(env, s, command, trial.now);
      }
    }
  }

  lemma EffectiveIsFresh(s: Snapshot, trial: Trial)
    requires Fresh(s, trial.command)
    ensures Fresh(s, Effective(s, trial))
  {
  }

  lemma SteadyTrialIsConsistent(env: Env, s: Snapshot, trial: Trial, t: Snapshot)
    requires Reaches(env, s, trial, t) && Fresh(s, trial.command) && Steady(trial) && Consistent(env, s)
    ensures Consistent(env, t)
  {
    hide Consistent, Apply, Partway, Fresh, Quiet, Leftover;
    var command := Effective(s, trial);
    EffectiveIsFresh(s, trial);
    if Leftover(s, command, t) {
      LeftoverKeepsConsistency(env, s, command, t);
    } else if t != s {
      ApplyKeepsConsistency(env, s, command, trial.now);
    }
  }

  lemma NewIsFresh(s: Snapshot, trials: seq<Trial>, n: nat)
    requires n < |trials| && AbsentFrom(s, trials, n)
    ensures Fresh(s, trials[n].command)
  {
  }

  /** Every upload got names that were new when it ran. */
  ghost predicate FreshChain(trials: seq<Trial>, states: seq<Snapshot>)
    requires |states| == |trials| + 1
  {
    forall i :: 0 <= i < |trials| ==> Fresh(states[i], trials[i].command)
  }

  /** The state after n trials, whatever went wrong in them: every row has its bytes, and what the
      database says on its own still holds. */
  lemma {:induction false} EveryRunIsDurable(env: Env, trials: seq<Trial>, states: seq<Snapshot>, n: nat)
    requires Chain(env, trials, states) && n <= |trials| && FreshChain(trials, states)
    ensures Survives(env, states[0].rows, states[0].disk) ==> Survives(env, states[n].rows, states[n].disk)
    ensures Records(env, states[0]) ==> Records(env, states[n])
  {
    hide Survives, Records, Reaches, Fresh;
    if n > 0 {
      EveryRunIsDurable(env, trials, states, n - 1);
      TrialIsDurable(env, states[n - 1], trials[n - 1], states[n]);
    }
  }

  lemma {:induction false} NamesStayNewFor(env: Env, trials: seq<Trial>, states: seq<Snapshot>, n: nat)
    requires Chain(env, trials, states) && n <= |trials| && NewNames(states[0], trials)
    requires Survives(env, states[0].rows, states[0].disk)
    ensures Survives(env, states[n].rows, states[n].disk) && AbsentFrom(states[n], trials, n)
  {
    hide Survives, Records, Reaches, Absent, Fresh;
    if n > 0 {
      NamesStayNewFor(env, trials, states, n - 1);
      NewIsFresh(states[n - 1], trials, n - 1);
      TrialIsDurable(env, states[n - 1], trials[n - 1], states[n]);
      SurvivorsAreWellFormed(env, states[n - 1]);
      NamesStayNew(env, states[n - 1], trials, n - 1, states[n]);
    }
  }

  /** Names that are new at the start and unlike each other are new when they are used: no trial,
      however it ends, stores anything under the name of another upload. */
  lemma NewNamesAreFresh(env: Env, trials: seq<Trial>, states: seq<Snapshot>)
    requires Chain(env, trials, states) && NewNames(states[0], trials) && Survives(env, states[0].rows, states[0].disk)
    ensures FreshChain(trials, states)
  {
    hide Survives, Reaches, Absent, Fresh, NewNames, AbsentFrom;
    forall i | 0 <= i < |trials|
      ensures Fresh(states[i], trials[i].command)
    {
      NamesStayNewFor(env, trials, states, i);
      NewIsFresh(states[i], trials, i);
    }
  }

  lemma SurvivorsAreWellFormed(env: Env, s: Snapshot)
    requires Survives(env, s.rows, s.disk)
    ensures WellFormed(s.disk)
  {
  }

  /** If the process never stops and compensation works, database and storage agree throughout. */
  lemma {:induction false} SteadyRunsStayConsistent(env: Env, trials: seq<Trial>, states: seq<Snapshot>, n: nat)
    requires Chain(env, trials, states) && n <= |trials| && FreshChain(trials, states)
    requires Consistent(env, states[0]) && forall trial :: trial in trials ==> Steady(trial)
    ensures Consistent(env, states[n])
  {
    hide Consistent, Reaches, Fresh, Steady;
    if n > 0 {
      SteadyRunsStayConsistent(env, trials, states, n - 1);
      SteadyTrialIsConsistent(env, states[n - 1], trials[n - 1], states[n]);
    }
  }

  /** In every state of every run from a consistent one, stops and failures included, infected files
      are hidden, counters add up, and every grant points at the only copy of a screened file. */
  lemma EveryStateOfEveryRunIsSafe(env: Env, trials: seq<Trial>, states: seq<Snapshot>, n: nat)
    requires Chain(env, trials, states) && n <= |trials| && FreshChain(trials, states)
    requires Consistent(env, states[0]) && FixesMimeTypes(env.fold)
    ensures Safe(env, states[n])
    ensures (forall trial :: trial in trials ==> Steady(trial)) ==> LinksWork(states[n])
  {
    hide Consistent, Survives, Records, Safe, LinksWork, Reaches, FreshChain, FixesMimeTypes;
    ConsistentIsDurable(env, states[0]);
    EveryRunIsDurable(env, trials, states, n);
    DurableIsSafe(env, states[n]);
    if forall trial :: trial in trials ==> Steady(trial) {
      SteadyRunsStayConsistent(env, trials, states, n);
      ConsistentLinksWork(env, states[n]);
    }
  }

  // ---- Quiet runs ----

  ghost predicate QuietTrial(trial: Trial) {
    && trial.plan.Quiet()
    && trial.orphans.stop == None && forall n :: !trial.orphans.moveFails(n) && !trial.orphans.unlinkFails(n)
  }

  /** No file is staged under a name that an orphan cleanup of the run generates. */
  ghost predicate FreeStaging(s: Snapshot, trials: seq<Trial>) {
    forall i, k :: 0 <= i < |trials| && trials[i].command.CleanOrphans? ==> StagingPlace(trials[i].orphans.token(k)) !in s.disk.files
  }

  /** The commands of a run in which nothing goes wrong. */
  function QuietSteps(env: Env, s: Snapshot, trials: seq<Trial>): seq<Step>
    decreases trials
  {
    if trials == [] then []
    else
      var step := Step(Effective(s, trials[0]), trials[0].now);
      [step] + QuietSteps(env, After(env, s, step), trials[1..])
  }

  lemma WholeOperationsStageNothing(env: Env, s: Snapshot, command: Command, now: int, place: Place)
    requires place.Temporary? && place !in s.disk.files
    ensures place !in After(env, s, Step(command, now)).disk.files
  {
    hide Transitioned, BarrierFor, StoredMimeType, AssessSample;
  }

  /** A run in which nothing goes wrong carries every command out: it is the run of the whole
      operations. */
  lemma {:induction false} QuietRunsAreWhole(env: Env, trials: seq<Trial>, states: seq<Snapshot>)
    requires Chain(env, trials, states) && NewNames(states[0], trials) && FreeStaging(states[0], trials)
    requires Survives(env, states[0].rows, states[0].disk) && forall trial :: trial in trials ==> QuietTrial(trial)
    ensures states[|trials|] == Run(env, states[0], QuietSteps(env, states[0], trials))
    decreases trials
  {
    hide Survives, Apply, Partway, Leftover, Absent, Fresh;
    if trials != [] {
      var s, t := states[0], states[1];
      var step := Step(Effective(s, trials[0]), trials[0].now);
      NewIsFresh(s, trials, 0);
      FirstIsQuiet(s, trials);
      assert Reaches(env, s, trials[0], t);
      assert t == After(env, s, step);
      NamesStayNewFor(env, trials, states, 1);
      StillFree(env, s, trials, t, step);
      RestHasNewNames(s, t, trials);
      RestIsChain(env, trials, states);
      QuietRunsAreWhole(env, trials[1..], states[1..]);
      var rest := QuietSteps(env, t, trials[1..]);
      assert ([step] + rest)[1..] == rest;
    }
  }

  lemma FirstIsQuiet(s: Snapshot, trials: seq<Trial>)
    requires trials != [] && QuietTrial(trials[0]) && AbsentFrom(s, trials, 0) && FreeStaging(s, trials)
    ensures Quiet(s, trials[0])
  {
  }

  lemma StillFree(env: Env, s: Snapshot, trials: seq<Trial>, t: Snapshot, step: Step)
    requires trials != [] && FreeStaging(s, trials) && t == After(env, s, step)
    ensures FreeStaging(t, trials[1..])
  {
    hide Apply;
    forall i, k | 0 <= i < |trials[1..]| && trials[1..][i].command.CleanOrphans?
      ensures StagingPlace(trials[1..][i].orphans.token(k)) !in t.disk.files
    {
      assert trials[1..][i] == trials[i + 1];
      WholeOperationsStageNothing(env, s, step.command, step.now, StagingPlace(trials[i + 1].orphans.token(k)));
    }
  }

  lemma RestHasNewNames(s: Snapshot, t: Snapshot, trials: seq<Trial>)
    requires trials != [] && NewNames(s, trials) && AbsentFrom(t, trials, 1)
    ensures NewNames(t, trials[1..])
  {
    hide Absent;
    forall i | 0 <= i < |trials[1..]|
      ensures trials[1..][i] == trials[i + 1]
    {
    }
  }

  lemma RestIsChain(env: Env, trials: seq<Trial>, states: seq<Snapshot>)
    requires trials != [] && Chain(env, trials, states)
    ensures Chain(env, trials[1..], states[1..])
  {
    hide Reaches;
    forall i | 0 <= i < |trials| - 1
      ensures Reaches(env, states[1..][i], trials[1..][i], states[1..][i + 1])
    {
      assert Reaches(env, states[i + 1], trials[i + 1], states[i + 2]);
    }
  }

  // ---- Carrying a run out ----

  /** Every run. Its states form a chain; so no row ever loses its bytes or its records, whatever
      fails and wherever the process stops; database and storage agree at the end if the process
      never stops and compensation works; and if nothing goes wrong, every command was carried out. */
  method RunTrials(hub: Hub, downloads: DownloadService, trials: seq<Trial>) returns (ghost states: seq<Snapshot>)
    requires hub.Valid() && downloads.hub == hub
    requires forall trial :: trial in trials && trial.command.Upload? ==> trial.command.maxSize == hub.maxSize
    modifies hub`rows, hub`releases, hub`softwares, hub`files, hub`origin, hub`abandoned, hub.daily
    ensures hub.Valid()
    ensures Chain(hub.env, trials, states) && states[0] == old(hub.State()) && states[|trials|] == hub.State()
    ensures old(NewNames(hub.State(), trials) && Survives(hub.env, hub.rows, hub.Storage())) ==> FreshChain(trials, states)
    ensures FreshChain(trials, states) && old(Survives(hub.env, hub.rows, hub.Storage())) ==> Survives(hub.env, hub.rows, hub.Storage())
    ensures FreshChain(trials, states) && old(Records(hub.env, hub.State())) ==> Records(hub.env, hub.State())
    ensures FreshChain(trials, states) && old(Consistent(hub.env, hub.State())) && (forall trial :: trial in trials ==> Steady(trial)) ==>
              Consistent(hub.env, hub.State())
    ensures old(NewNames(hub.State(), trials) && FreeStaging(hub.State(), trials) && Survives(hub.env, hub.rows, hub.Storage())) ==>
              (forall trial :: trial in trials ==> QuietTrial(trial)) ==>
              hub.State() == Run(hub.env, old(hub.State()), QuietSteps(hub.env, old(hub.State()), trials))
  {
    hide Reaches, NewNames, FreeStaging, Survives, Records, Consistent, Steady, QuietTrial, FreshChain;
    states := [hub.State()];
    for i := 0 to |trials|
      invariant hub.Valid()
      invariant |states| == i + 1 && states[0] == old(hub.State()) && states[i] == hub.State()
      invariant forall j :: 0 <= j < i ==> Reaches(hub.env, states[j], trials[j], states[j + 1])
    {
      Execute(hub, downloads, trials[i]);
      states := states + [hub.State()];
    }
    if NewNames(states[0], trials) && Survives(hub.env, states[0].rows, states[0].disk) {
      NewNamesAreFresh(hub.env, trials, states);
      if FreeStaging(states[0], trials) && forall trial :: trial in trials ==> QuietTrial(trial) {
        QuietRunsAreWhole(hub.env, trials, states);
      }
    }
    if FreshChain(trials, states) {
      EveryRunIsDurable(hub.env, trials, states, |trials|);
      if Consistent(hub.env, states[0]) && forall trial :: trial in trials ==> Steady(trial) {
        SteadyRunsStayConsistent(hub.env, trials, states, |trials|);
      }
    }
  }
}
