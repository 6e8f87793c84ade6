/** What survives everything: the facts that hold after every operation and also wherever one stops.
    Rows change only in transactions, so whatever the rows say on their own is never lost; and every
    row keeps its bytes. */
module Durability {
  import opened Prelude
  import opened Signatures
  import opened Policies
  import opened DownloadStats
  import opened StorageState
  import opened Lifecycle
  import opened Interruptions
  import opened FileService
  import opened Maintenance

  ghost predicate RowsStand(fold: Fold, rows: map<nat, FileRow>) {
    forall id :: id in rows ==> Screened(fold, rows[id]) && Stamped(rows[id])
  }

  /** What the database says on its own: unique paths and public identifiers, parents, screening,
      dates and download counts. */
  ghost predicate Records(env: Env, s: Snapshot) {
    && Indexed(s.rows)
    && AllHaveParents(s.rows, s.releases, s.softwares)
    && RowsStand(env.fold, s.rows)
    && CountsAgree(s.rows, s.stats)
  }

  ghost predicate Durable(env: Env, s: Snapshot) {
    Survives(env, s.rows, s.disk) && Records(env, s)
  }

  const EMPTY := Snapshot(map[], map[], map[], map[], Disk(map[], map[]), {})

  /** An installation without any data is consistent. */
  lemma EmptyIsConsistent(env: Env)
    ensures Consistent(env, EMPTY)
  {
  }

  lemma ConsistentIsDurable(env: Env, s: Snapshot)
    requires Consistent(env, s)
    ensures Durable(env, s)
  {
    ConsistentSurvives(env, s);
    forall id | id in s.rows
      ensures Screened(env.fold, s.rows[id]) && Stamped(s.rows[id])
    {
      assert Settled(env, s.disk, s.rows[id]);
    }
  }

  // ---- Rows ----

  lemma UpdatedRecords(env: Env, s: Snapshot, id: nat, row: FileRow)
    requires Records(env, s) && id in s.rows && Screened(env.fold, row) && Stamped(row)
    requires row.path == s.rows[id].path && row.publicUuid == s.rows[id].publicUuid
    requires row.releaseId == s.rows[id].releaseId && row.downloadCount == s.rows[id].downloadCount
    ensures Records(env, s.(rows := s.rows[id := row]))
  {
    hide Screened, Stamped, Indexed, CountsAgree;
    UpdateKeepsIndexes(s.rows, id, row);
    UpdateKeepsCounts(s.rows, s.stats, id, row);
  }

  lemma DroppedRecords(env: Env, s: Snapshot, id: nat)
    requires Records(env, s) && id in s.rows
    ensures Records(env, WithoutRow(s, id))
  {
    hide Screened, Stamped, Indexed, CountsAgree;
    DropKeepsIndexes(s.rows, id);
    DropKeepsCounts(s.rows, s.stats, id);
  }

  /** Screening and dates after a transition that its operation allows. */
  lemma TransitionStands(env: Env, s: Snapshot, id: nat, target: FileStatus, now: int)
    requires RowsStand(env.fold, s.rows) && id in s.rows
    requires Transitioned(s.releases, s.softwares, s.rows[id], target, now).Success?
    requires target == Published ==> BarrierFor(env, s.releases, s.softwares, s.rows[id]) == None
    ensures var row := Transitioned(s.releases, s.softwares, s.rows[id], target, now).value;
            && Screened(env.fold, row) && Stamped(row) && SameFile(row, s.rows[id])
            && row.releaseId == s.rows[id].releaseId && row.publicUuid == s.rows[id].publicUuid
            && row.downloadCount == s.rows[id].downloadCount
  {
    var release := s.releases[s.rows[id].releaseId];
    TransitionKeepsScreening(env.fold, s.rows[id], release, s.softwares[release.softwareId], target, now);
    TransitionHistory(s.rows[id], release, s.softwares[release.softwareId], target, now);
  }

  lemma TransitionKeepsRecords(env: Env, s: Snapshot, id: nat, target: FileStatus, now: int, disk: Disk)
    requires Records(env, s) && id in s.rows
    requires Transitioned(s.releases, s.softwares, s.rows[id], target, now).Success?
    requires target == Published ==> BarrierFor(env, s.releases, s.softwares, s.rows[id]) == None
    ensures var row := Transitioned(s.releases, s.softwares, s.rows[id], target, now).value;
            Records(env, s.(rows := s.rows[id := row], disk := disk))
  {
    hide Transitioned, BarrierFor, Screened, Stamped;
    TransitionStands(env, s, id, target, now);
    UpdatedRecords(env, s, id, Transitioned(s.releases, s.softwares, s.rows[id], target, now).value);
  }

  lemma StatusChangeKeepsRecords(env: Env, s: Snapshot, id: nat, target: FileStatus, now: int)
    requires Records(env, s)
    ensures AtomicReview(env, s, id, target, now).Success? ==> Records(env, AtomicReview(env, s, id, target, now).value)
    ensures AtomicPublish(env, s, id, now).Success? ==> Records(env, AtomicPublish(env, s, id, now).value)
    ensures target in {Disabled, Archived} && AtomicTransition(env, s, id, target, now).Success? ==>
              Records(env, AtomicTransition(env, s, id, target, now).value)
    ensures AtomicRestoreReady(env, s, id, now).Success? ==> Records(env, AtomicRestoreReady(env, s, id, now).value)
  {
    hide Records, Transitioned, BarrierFor, Verified;
    if AtomicReview(env, s, id, target, now).Success? || (target in {Disabled, Archived} && AtomicTransition(env, s, id, target, now).Success?) {
      TransitionKeepsRecords(env, s, id, target, now, s.disk);
    }
    if AtomicPublish(env, s, id, now).Success? {
      TransitionKeepsRecords(env, s, id, Published, now, AtomicPublish(env, s, id, now).value.disk);
    }
    if AtomicRestoreReady(env, s, id, now).Success? {
      TransitionKeepsRecords(env, s, id, Ready, now, AtomicRestoreReady(env, s, id, now).value.disk);
    }
  }

  lemma UploadKeepsRecords(env: Env, s: Snapshot, r: UploadRequest, maxSize: nat)
    requires Records(env, s) && AtomicUpload(env, s, r, maxSize).Success?
    ensures Records(env, AtomicUpload(env, s, r, maxSize).value)
  {
    hide Indexed, CountsAgree;
    InsertKeepsIndexes(s.rows, r.id, NewRow(env, r));
    InsertKeepsCounts(env, s.rows, s.stats, r);
  }

  lemma CountingKeepsRecords(env: Env, s: Snapshot, id: nat, row: FileRow, day: int, increment: Daily)
    requires Records(env, s) && id in s.rows && increment.downloads == increment.successful
    requires row == s.rows[id].(downloadCount := s.rows[id].downloadCount + increment.downloads)
    ensures Records(env, s.(rows := s.rows[id := row], stats := Upserted(s.stats, id, day, increment)))
  {
    hide Indexed, CountsAgree;
    UpdateKeepsIndexes(s.rows, id, row);
    CountingKeepsCounts(s.rows, s.stats, id, row, day, increment);
  }

  lemma MinorChangeKeepsRecords(env: Env, s: Snapshot, command: Command, now: int)
    requires Records(env, s) && Apply(env, s, command, now).Success?
    requires command.DeleteMetadata? || command.PermanentlyDelete? || command.SetVisibility? || command.SetParents?
          || command.RecordDownload? || command.RecordBlocked?
    ensures Records(env, Apply(env, s, command, now).value)
  {
    hide Indexed, CountsAgree, Upserted;
    match command
    case DeleteMetadata(id) => DroppedRecords(env, s, id);
    case PermanentlyDelete(id, _) => DroppedRecords(env, s, id);
    case SetVisibility(id, visibility) => UpdatedRecords(env, s, id, s.rows[id].(visibility := visibility));
    case SetParents(_, _) =>
    case RecordDownload(id, day) =>
      CountingKeepsRecords(env, s, id, s.rows[id].(downloadCount := s.rows[id].downloadCount + 1), day, AUTHORIZED);
    case RecordBlocked(id, day) =>
      assert s.rows[id := s.rows[id]] == s.rows;
      CountingKeepsRecords(env, s, id, s.rows[id], day, BLOCKED);
  }

  /** Every operation keeps what the database says on its own, whatever the state of the storage. */
  lemma ApplyKeepsRecords(env: Env, s: Snapshot, command: Command, now: int)
    requires Records(env, s) && Apply(env, s, command, now).Success?
    ensures Records(env, Apply(env, s, command, now).value)
  {
    hide Records, AtomicReview, AtomicPublish, AtomicTransition, AtomicRestoreReady, AtomicDeleteMetadata, AtomicPermanentlyDelete,
      AtomicUpload, AtomicSetParents, AtomicSetVisibility, AtomicRecordDownload, AtomicRecordBlocked;
    match command
    case Upload(r, maxSize) => UploadKeepsRecords(env, s, r, maxSize);
    case Review(id, target) => StatusChangeKeepsRecords(env, s, id, target, now);
    case Publish(id) => StatusChangeKeepsRecords(env, s, id, Published, now);
    case Disable(id) => StatusChangeKeepsRecords(env, s, id, Disabled, now);
    case Archive(id) => StatusChangeKeepsRecords(env, s, id, Archived, now);
    case RestoreReady(id) => StatusChangeKeepsRecords(env, s, id, Ready, now);
    case CleanOrphans => SameRowsSameRecords(env, s, OrphansCleaned(s));
    case CleanTemporary(deleted) => SameRowsSameRecords(env, s, s.(disk := TemporaryCleaned(s.disk, deleted)));
    case _ => MinorChangeKeepsRecords(env, s, command, now);
  }

  lemma SameRowsSameRecords(env: Env, s: Snapshot, t: Snapshot)
    requires Records(env, s) && t.rows == s.rows && t.releases == s.releases && t.softwares == s.softwares && t.stats == s.stats
    ensures Records(env, t)
  {
  }

  /** So do the states in which an operation may stop. */
  lemma PartwayKeepsRecords(env: Env, s: Snapshot, command: Command, t: Snapshot)
    requires Records(env, s) && Partway(s, command, t)
    ensures Records(env, t)
  {
    hide Records;
    match command
    case PermanentlyDelete(id, token) =>
      if StagedOnly(s, id, StagingPlace(token), true, t) {
        DroppedRecords(env, s, id);
        SameRowsSameRecords(env, WithoutRow(s, id), t);
      } else {
        SameRowsSameRecords(env, s, t);
      }
    case CleanOrphans =>
      var trace :| TraceLeads(trace, s, t);
      OrphansKeepRows(trace);
      SameRowsSameRecords(env, s, t);
    case _ => SameRowsSameRecords(env, s, t);
  }

  lemma {:induction false} OrphansKeepRows(trace: seq<Snapshot>)
    requires trace != [] && OrphanTrace(trace)
    ensures var s, t := trace[0], trace[|trace| - 1];
            t.rows == s.rows && t.releases == s.releases && t.softwares == s.softwares && t.stats == s.stats
  {
    if |trace| > 1 {
      var init := trace[..|trace| - 1];
      OrphansKeepRows(init);
      assert OrphanStep(trace[|trace| - 2], trace[|trace| - 1]);
    }
  }

  // ---- Bytes ----

  /** Every operation that succeeds leaves every row its bytes, whatever state it started from. */
  lemma ApplyKeepsSurvival(env: Env, s: Snapshot, command: Command, now: int)
    requires Survives(env, s.rows, s.disk) && Fresh(s, command) && Apply(env, s, command, now).Success?
    ensures var t := Apply(env, s, command, now).value; Survives(env, t.rows, t.disk)
  {
    hide Survives, AtomicReview, AtomicPublish, AtomicTransition, AtomicRestoreReady, AtomicDeleteMetadata, AtomicPermanentlyDelete,
      AtomicUpload, AtomicSetVisibility, AtomicSetParents, AtomicRecordDownload, AtomicRecordBlocked, OrphansCleaned, TemporaryCleaned,
      Fresh;
    match command
    case Upload(r, maxSize) => UploadKeepsSurvival(env, s, r, maxSize);
    case Review(id, target) => StatusChangeKeepsSurvival(env, s, id, target, now);
    case Publish(id) => MoveChangeKeepsSurvival(env, s, id, now);
    case Disable(id) => StatusChangeKeepsSurvival(env, s, id, Disabled, now);
    case Archive(id) => StatusChangeKeepsSurvival(env, s, id, Archived, now);
    case RestoreReady(id) => MoveChangeKeepsSurvival(env, s, id, now);
    case DeleteMetadata(id) => DeletionKeepsSurvival(env, s, id, "");
    case PermanentlyDelete(id, token) => DeletionKeepsSurvival(env, s, id, token);
    case CleanOrphans => OrphanCleanupKeepsSurvival(env, s);
    case CleanTemporary(deleted) => TemporaryCleanupKeepsSurvival(env, s.rows, s.disk, deleted);
    case _ => MinorChangeKeepsSurvival(env, s, command, now);
  }

  lemma MinorChangeKeepsSurvival(env: Env, s: Snapshot, command: Command, now: int)
    requires Survives(env, s.rows, s.disk) && Apply(env, s, command, now).Success?
    requires command.SetVisibility? || command.SetParents? || command.RecordDownload? || command.RecordBlocked?
    ensures var t := Apply(env, s, command, now).value; Survives(env, t.rows, t.disk)
  {
    hide Survives, Upserted;
    match command
    case SetVisibility(id, visibility) =>
      RowUpdateKeepsSurvival(env, s.rows, s.disk, id, s.rows[id].(visibility := visibility));
    case SetParents(_, _) =>
    case RecordDownload(id, _) =>
      RowUpdateKeepsSurvival(env, s.rows, s.disk, id, s.rows[id].(downloadCount := s.rows[id].downloadCount + 1));
    case RecordBlocked(_, _) =>
  }

  lemma UploadKeepsSurvival(env: Env, s: Snapshot, r: UploadRequest, maxSize: nat)
    requires Survives(env, s.rows, s.disk) && Fresh(s, Upload(r, maxSize)) && AtomicUpload(env, s, r, maxSize).Success?
    ensures var t := AtomicUpload(env, s, r, maxSize).value; Survives(env, t.rows, t.disk)
  {
    QuarantineRoundTrip(env, s.rows, s.disk, r);
  }

  lemma TransitionedIsSameFile(s: Snapshot, id: nat, target: FileStatus, now: int)
    requires id in s.rows && Transitioned(s.releases, s.softwares, s.rows[id], target, now).Success?
    ensures SameFile(Transitioned(s.releases, s.softwares, s.rows[id], target, now).value, s.rows[id])
  {
  }

  lemma StatusChangeKeepsSurvival(env: Env, s: Snapshot, id: nat, target: FileStatus, now: int)
    requires Survives(env, s.rows, s.disk)
    ensures AtomicReview(env, s, id, target, now).Success? ==>
              var t := AtomicReview(env, s, id, target, now).value; Survives(env, t.rows, t.disk)
    ensures AtomicTransition(env, s, id, target, now).Success? ==>
              var t := AtomicTransition(env, s, id, target, now).value; Survives(env, t.rows, t.disk)
  {
    hide Survives, Transitioned, Verified;
    if AtomicReview(env, s, id, target, now).Success? || AtomicTransition(env, s, id, target, now).Success? {
      TransitionedIsSameFile(s, id, target, now);
      RowUpdateKeepsSurvival(env, s.rows, s.disk, id, Transitioned(s.releases, s.softwares, s.rows[id], target, now).value);
    }
  }

  lemma ShiftKeepsSurvival(env: Env, s: Snapshot, id: nat, row: FileRow, src: Area, dst: Area)
    requires Survives(env, s.rows, s.disk) && id in s.rows && SameFile(row, s.rows[id])
    requires src != dst ==> CanMove(s.disk, Stored(src, row.path), Stored(dst, row.path))
    ensures var t := Shifted(s, id, row, src, dst); Survives(env, t.rows, t.disk)
  {
    hide Survives;
    var t := Shifted(s, id, row, src, dst);
    if src != dst {
      MoveKeepsSurvival(env, s.rows, s.disk, Stored(src, row.path), Stored(dst, row.path));
    }
    RowUpdateKeepsSurvival(env, s.rows, t.disk, id, row);
  }

  lemma MoveChangeKeepsSurvival(env: Env, s: Snapshot, id: nat, now: int)
    requires Survives(env, s.rows, s.disk)
    ensures AtomicPublish(env, s, id, now).Success? ==>
              var t := AtomicPublish(env, s, id, now).value; Survives(env, t.rows, t.disk)
    ensures AtomicRestoreReady(env, s, id, now).Success? ==>
              var t := AtomicRestoreReady(env, s, id, now).value; Survives(env, t.rows, t.disk)
  {
    hide Survives, Transitioned, BarrierFor;
    if AtomicPublish(env, s, id, now).Success? {
      TransitionedIsSameFile(s, id, Published, now);
      ShiftKeepsSurvival(env, s, id, Transitioned(s.releases, s.softwares, s.rows[id], Published, now).value, Quarantine, SoftwareArea);
    }
    if AtomicRestoreReady(env, s, id, now).Success? {
      TransitionedIsSameFile(s, id, Ready, now);
      ShiftKeepsSurvival(env, s, id, Transitioned(s.releases, s.softwares, s.rows[id], Ready, now).value,
                         Verified(env, s.disk.files, s.rows[id], false).value, Quarantine);
    }
  }

  lemma DeletionKeepsSurvival(env: Env, s: Snapshot, id: nat, token: string)
    requires Survives(env, s.rows, s.disk)
    ensures AtomicDeleteMetadata(s, id).Success? ==>
              var t := AtomicDeleteMetadata(s, id).value; Survives(env, t.rows, t.disk)
    ensures AtomicPermanentlyDelete(env, s, id, StagingPlace(token)).Success? ==>
              var t := AtomicPermanentlyDelete(env, s, id, StagingPlace(token)).value; Survives(env, t.rows, t.disk)
  {
    hide Survives;
    if id in s.rows {
      RowDropKeepsSurvival(env, s.rows, s.disk, id);
      if AtomicPermanentlyDelete(env, s, id, StagingPlace(token)).Success? {
        var area := Verified(env, s.disk.files, s.rows[id], false).value;
        UnlinkKeepsSurvival(env, s.rows - {id}, s.disk, Stored(area, s.rows[id].path));
      }
    }
  }

  lemma OrphanCleanupKeepsSurvival(env: Env, s: Snapshot)
    requires Survives(env, s.rows, s.disk)
    ensures var t := OrphansCleaned(s); Survives(env, t.rows, t.disk)
  {
    var t := OrphansCleaned(s).disk;
    forall id | id in s.rows
      ensures Held(env, t, s.rows[id])
    {
      var kept :| IsOnlyCopy(env, s.disk, s.rows[id], kept);
      assert !IsOrphan(s.rows, kept);
      forall other | IsCopyOf(t, other, s.rows[id].path)
        ensures IsCopyOf(s.disk, other, s.rows[id].path)
      {
      }
      assert IsOnlyCopy(env, t, s.rows[id], kept);
    }
  }

  /** Wherever an operation stops, every row keeps its bytes. */
  lemma PartwayKeepsSurvival(env: Env, s: Snapshot, command: Command, t: Snapshot)
    requires Survives(env, s.rows, s.disk) && Fresh(s, command) && Partway(s, command, t)
    ensures Survives(env, t.rows, t.disk)
  {
    hide Survives, OrphansPartly, UploadOnly, Moved;
    match command
    case Upload(r, maxSize) => UploadOnlyKeepsSurvival(env, s, r, t);
    case Publish(id) =>
      MoveKeepsSurvival(env, s.rows, s.disk, Stored(Quarantine, s.rows[id].path), Stored(SoftwareArea, s.rows[id].path));
    case RestoreReady(id) =>
      MoveKeepsSurvival(env, s.rows, s.disk, Stored(SoftwareArea, s.rows[id].path), Stored(Quarantine, s.rows[id].path));
    case PermanentlyDelete(id, token) =>
      var place := Stored(Locate(s.disk.files, s.rows[id].path).value, s.rows[id].path);
      MoveKeepsSurvival(env, s.rows, s.disk, place, StagingPlace(token));
      RowDropKeepsSurvival(env, s.rows, Moved(s.disk, place, StagingPlace(token)), id);
    case CleanOrphans => OrphansKeepSurvival(env, s, t);
  }

  lemma UploadOnlyKeepsSurvival(env: Env, s: Snapshot, r: UploadRequest, t: Snapshot)
    requires Survives(env, s.rows, s.disk) && UploadOnly(s, r, t)
    requires forall place :: !IsCopyOf(s.disk, place, r.path)
    ensures Survives(env, t.rows, t.disk)
  {
    assert WellFormed(s.disk);
    QuarantineRoundTrip(env, s.rows, s.disk, r);
    if written :| written <= r.data && t == s.(disk := WithFile(s.disk, UploadPlace(r.token), written)) {
      TemporaryRoundTrip(env, s.rows, s.disk, r.token, written);
    }
  }

  lemma OrphansKeepSurvival(env: Env, s: Snapshot, t: Snapshot)
    requires Survives(env, s.rows, s.disk) && OrphansPartly(s, t)
    ensures Survives(env, t.rows, t.disk)
  {
    hide Survives;
    var trace :| TraceLeads(trace, s, t);
    TraceKeepsSurvival(env, trace);
  }

  lemma {:induction false} TraceKeepsSurvival(env: Env, trace: seq<Snapshot>)
    requires trace != [] && OrphanTrace(trace) && Survives(env, trace[0].rows, trace[0].disk)
    ensures var t := trace[|trace| - 1]; Survives(env, t.rows, t.disk)
  {
    hide Survives, OrphanStep;
    if |trace| > 1 {
      TraceKeepsSurvival(env, trace[..|trace| - 1]);
      OrphanStepIsSafe(env, trace[|trace| - 2], trace[|trace| - 1]);
    }
  }

  lemma OrphanStepIsSafe(env: Env, s: Snapshot, t: Snapshot)
    requires OrphanStep(s, t)
    ensures Survives(env, s.rows, s.disk) ==> Survives(env, t.rows, t.disk)
    ensures Consistent(env, s) ==> Consistent(env, t)
  {
    hide Survives, Consistent;
    var place, staged :| OrphanStepAt(s, place, staged, t);
    if Survives(env, s.rows, s.disk) || Consistent(env, s) {
      StoredIsWellFormed(env, s);
      OrphanStepsAreSafe(env, s, place, staged);
      StagedAndGone(s.disk, place, staged);
    }
  }

  lemma StoredIsWellFormed(env: Env, s: Snapshot)
    ensures Survives(env, s.rows, s.disk) || Consistent(env, s) ==> WellFormed(s.disk)
  {
  }

  // ---- Consistency, without stops ----

  /** What a steady operation may leave behind is consistent as well. */
  lemma LeftoverKeepsConsistency(env: Env, s: Snapshot, command: Command, t: Snapshot)
    requires Consistent(env, s) && Fresh(s, command) && Leftover(s, command, t)
    ensures Consistent(env, t)
  {
    hide Consistent, OrphansPartly;
    match command
    case PermanentlyDelete(id, token) =>
      StagedLeftoverIsConsistent(env, s, id, Locate(s.disk.files, s.rows[id].path).value, StagingPlace(token));
    case CleanOrphans => OrphansKeepConsistency(env, s, t);
    case Upload(r, maxSize) =>
  }

  lemma OrphansKeepConsistency(env: Env, s: Snapshot, t: Snapshot)
    requires Consistent(env, s) && OrphansPartly(s, t)
    ensures Consistent(env, t)
  {
    hide Consistent;
    var trace :| TraceLeads(trace, s, t);
    TraceKeepsConsistency(env, trace);
  }

  lemma {:induction false} TraceKeepsConsistency(env: Env, trace: seq<Snapshot>)
    requires trace != [] && OrphanTrace(trace) && Consistent(env, trace[0])
    ensures Consistent(env, trace[|trace| - 1])
  {
    hide Consistent, OrphanStep;
    if |trace| > 1 {
      TraceKeepsConsistency(env, trace[..|trace| - 1]);
      OrphanStepIsSafe(env, trace[|trace| - 2], trace[|trace| - 1]);
    }
  }

  /** A deleted row whose file could not be removed in the end: the file stays staged. */
  lemma StagedLeftoverIsConsistent(env: Env, s: Snapshot, id: nat, area: Area, staged: Place)
    requires Consistent(env, s) && id in s.rows && Locate(s.disk.files, s.rows[id].path) == Some(area)
    requires staged !in s.disk.files && IsStagingPlace(staged)
    ensures var place := Stored(area, s.rows[id].path);
            CanMove(s.disk, place, staged) && Consistent(env, WithoutRow(s, id).(disk := Moved(s.disk, place, staged)))
  {
    var place := Stored(area, s.rows[id].path);
    AbandonKeepsConsistency(env, s, id, area);
    var t := WithoutRow(s, id).(abandoned := s.abandoned + {place});
    assert place !in s.abandoned by { assert Referenced(s.rows, place.path); }
    assert t.abandoned - {place} == s.abandoned;
    DropKeepsIndexes(s.rows, id);
    StagingOrphanKeepsConsistency(env, t, place, staged);
  }
}
