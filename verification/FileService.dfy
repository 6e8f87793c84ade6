/** The file operations as they really run: the file is moved first, the transaction commits second,
    and a failed transaction is compensated by moving the file back (`app/services/file_service.py`,
    `app/services/upload_service.py`, `app/storage/lifecycle.py`). */
module FileService {
  import opened Prelude
  import opened Signatures
  import opened Policies
  import opened DownloadStats
  import opened StorageState
  import opened Lifecycle
  import opened Interruptions
  import opened StreamingUpload

  /** I/O behaviour of one streaming copy, by call number. */
  datatype StreamOracle = StreamOracle(cut: nat -> nat, readFails: nat -> bool,
                                       accepts: nat -> int, writeFails: nat -> bool, syncs: bool) {
    ghost predicate Healthy() {
      syncs && forall n :: !readFails(n) && !writeFails(n) && accepts(n) > 0
    }
  }

  /** What goes wrong during one operation: the first move, the transaction, the compensation, the
      final unlink; and where the process stops, if it does. */
  datatype Plan = Plan(moveFails: bool, commitFails: bool, undoFails: bool, unlinkFails: bool,
                       stop: Option<nat>, stream: StreamOracle) {
    predicate StopsAt(step: nat) {
      stop == Some(step)
    }

    /** The process keeps running and compensation works; anything else may fail. */
    predicate Steady() {
      stop == None && !undoFails
    }

    ghost predicate Quiet() {
      Steady() && !moveFails && !commitFails && !unlinkFails && stream.Healthy()
    }
  }

  datatype Outcome =
    | Done
    | Raised(error: Error)
    | CompensationFailed
    | StagedCleanupFailed
    | Stopped

  function Expected(atomic: Result<Snapshot, Error>): Outcome {
    match atomic
    case Success(_) => Done
    case Failure(error) => Raised(error)
  }

  class Hub {
    const env: Env
    const maxSize: nat
    const chunkSize: nat
    const daily: DownloadStatRepository
    var rows: map<nat, FileRow>
    var releases: map<nat, Release>
    var softwares: map<nat, Software>
    var files: Files
    ghost var origin: map<Place, Path>
    ghost var abandoned: set<Place>

    constructor (env: Env, maxSize: nat, chunkSize: nat)
      requires chunkSize > 0
      ensures Valid() && fresh(daily) && this.env == env && this.maxSize == maxSize
      ensures State() == Snapshot(map[], map[], map[], map[], Disk(map[], map[]), {})
    {
      this.env, this.maxSize, this.chunkSize := env, maxSize, chunkSize;
      daily := new DownloadStatRepository();
      rows, releases, softwares, files := map[], map[], map[], map[];
      origin, abandoned := map[], {};
    }

    ghost function Storage(): Disk
      reads this
    {
      Disk(files, origin)
    }

    ghost function State(): Snapshot
      reads this, daily
    {
      Snapshot(rows, releases, softwares, daily.rows, Storage(), abandoned)
    }

    ghost predicate Valid()
      reads this
    {
      WellFormed(Storage()) && chunkSize > 0
    }

    /** What every operation promises: done means the atomic operation was done, raised means
        nothing changed, a run without trouble ends as the atomic operation does, and whatever
        happens, a stop included, every row keeps its bytes. */
    twostate predicate Obeys(outcome: Outcome, plan: Plan, atomic: Result<Snapshot, Error>)
      reads this, daily
    {
      && Valid()
      && (outcome == Done ==> atomic == Success(State()))
      && (outcome.Raised? ==> State() == old(State()))
      && (plan.Quiet() ==> outcome == Expected(atomic))
      && (plan.Steady() ==> outcome == Done || outcome.Raised?)
      && (old(Survives(env, rows, Storage())) ==> Survives(env, rows, Storage()))
    }

    /** Nothing happened, or all of it. */
    twostate predicate Whole(atomic: Result<Snapshot, Error>)
      reads this, daily
    {
      State() == old(State()) || atomic == Success(State())
    }

    // ---- Storage primitives ----

    method InspectStoredFiles(path: Path) returns (matches: seq<Area>)
      ensures matches == StoredAreas(files, path)
    {
      matches := [];
      var areas := [Quarantine, SoftwareArea];
      for i := 0 to 2
        invariant i == 0 ==> matches == []
        invariant i == 1 ==> matches == if Stored(Quarantine, path) in files then [Quarantine] else []
        invariant i == 2 ==> matches == StoredAreas(files, path)
      {
        if Stored(areas[i], path) in files {
          matches := matches + [areas[i]];
        }
      }
    }

    method LocateStoredFile(path: Path) returns (area: Option<Area>)
      ensures area == Locate(files, path)
    {
      var matches := InspectStoredFiles(path);
      if matches == [] {
        return None;
      }
      if |matches| > 1 {
        return None;
      }
      area := Some(matches[0]);
    }

    method VerifiedPhysicalFile(row: FileRow, verifyHash: bool) returns (area: Result<Area, Error>)
      ensures area == Verified(env, files, row, verifyHash)
    {
      var located := LocateStoredFile(row.path);
      if located == None {
        return Failure(StorageError);
      }
      var data := files[Stored(located.value, row.path)];
      if |data| != row.size {
        return Failure(FileValidationError);
      }
      if verifyHash && env.hash(data) != row.sha256 {
        return Failure(FileValidationError);
      }
      area := Success(located.value);
    }

    /** atomic_move: refuses to overwrite, and may fail without effect. */
    method AtomicMove(src: Place, dst: Place, fails: bool) returns (ok: bool)
      modifies this`files, this`origin
      ensures ok == (!fails && CanMove(old(Storage()), src, dst))
      ensures Storage() == if ok then Moved(old(Storage()), src, dst) else old(Storage())
      ensures old(Valid()) && (dst.Temporary? ==> IsStagingPlace(dst)) ==> Valid()
    {
      if src !in files || dst in files || fails {
        return false;
      }
      ghost var moved := Moved(Storage(), src, dst);
      files := (files - {src})[dst := files[src]];
      origin := moved.origin;
      ok := true;
    }

    /** path.unlink(missing_ok=True) with its error ignored. */
    method UnlinkQuietly(place: Place, fails: bool)
      modifies this`files, this`origin
      ensures Storage() == if fails then old(Storage()) else Unlinked(old(Storage()), place)
    {
      if !fails {
        files := files - {place};
        origin := origin - {place};
      }
    }

    // ---- FileService ----

    method ReviewStatus(id: nat, target: FileStatus, now: int, plan: Plan) returns (outcome: Outcome)
      requires Valid()
      modifies this`rows
      ensures Obeys(outcome, plan, AtomicReview(env, old(State()), id, target, now))
      ensures Whole(AtomicReview(env, old(State()), id, target, now))
    {
      if target !in {Ready, Rejected, Quarantined} {
        return Raised(InvalidStateTransition);
      }
      if id !in rows {
        return Raised(EntityNotFound);
      }
      var stored := VerifiedPhysicalFile(rows[id], false);
      if stored.Failure? {
        return Raised(stored.error);
      }
      if stored.value != Quarantine {
        return Raised(StorageError);
      }
      outcome := CommitTransition(id, target, now, plan);
    }

    /** disable and archive */
    method TransitionWithStorageCheck(id: nat, target: FileStatus, now: int, plan: Plan) returns (outcome: Outcome)
      requires Valid()
      modifies this`rows
      ensures Obeys(outcome, plan, AtomicTransition(env, old(State()), id, target, now))
      ensures Whole(AtomicTransition(env, old(State()), id, target, now))
    {
      if id !in rows {
        return Raised(EntityNotFound);
      }
      var stored := VerifiedPhysicalFile(rows[id], false);
      if stored.Failure? {
        return Raised(stored.error);
      }
      outcome := CommitTransition(id, target, now, plan);
    }

    /** The transaction that changes one row's status. */
    method CommitTransition(id: nat, target: FileStatus, now: int, plan: Plan) returns (outcome: Outcome)
      requires Valid() && id in rows
      modifies this`rows
      ensures var changed := Transitioned(releases, softwares, old(rows[id]), target, now);
              && (changed.Success? ==> SameFile(changed.value, old(rows[id])))
              && (outcome.Raised? ==> rows == old(rows))
              && (outcome == Done ==> changed.Success? && rows == old(rows)[id := changed.value])
              && (rows == old(rows) || (changed.Success? && rows == old(rows)[id := changed.value]))
              && (plan.Quiet() ==> outcome == if changed.Success? then Done else Raised(changed.error))
              && (plan.Steady() ==> outcome == Done || outcome.Raised?)
      ensures old(Survives(env, rows, Storage())) ==> Survives(env, rows, Storage())
    {
      var changed := Transitioned(releases, softwares, rows[id], target, now);
      if changed.Failure? {
        return Raised(changed.error);
      }
      if plan.commitFails {
        return Raised(StorageError);
      }
      if Survives(env, rows, Storage()) {
        RowUpdateKeepsSurvival(env, rows, Storage(), id, changed.value);
      }
      rows := rows[id := changed.value];
      outcome := if plan.StopsAt(0) then Stopped else Done;
    }

    /** Moves the file into the software area, then commits; a failed commit moves it back. */
    method Publish(id: nat, now: int, plan: Plan) returns (outcome: Outcome)
      requires Valid()
      modifies this`rows, this`files, this`origin
      ensures Obeys(outcome, plan, AtomicPublish(env, old(State()), id, now))
      ensures Whole(AtomicPublish(env, old(State()), id, now)) || Partway(old(State()), Command.Publish(id), State())
    {
      if id !in rows {
        return Raised(EntityNotFound);
      }
      var barrier := BarrierFor(env, releases, softwares, rows[id]);
      if barrier.Some? {
        return Raised(barrier.value);
      }
      var stored := VerifiedPhysicalFile(rows[id], true);
      if stored.Failure? {
        return Raised(stored.error);
      }
      if stored.value != Quarantine {
        return Raised(StorageError);
      }
      outcome := MoveThenCommit(id, Quarantine, SoftwareArea, Published, now, plan);
    }

    method RestoreReady(id: nat, now: int, plan: Plan) returns (outcome: Outcome)
      requires Valid()
      modifies this`rows, this`files, this`origin
      ensures Obeys(outcome, plan, AtomicRestoreReady(env, old(State()), id, now))
      ensures Whole(AtomicRestoreReady(env, old(State()), id, now)) || Partway(old(State()), Command.RestoreReady(id), State())
    {
      if id !in rows {
        return Raised(EntityNotFound);
      }
      var stored := VerifiedPhysicalFile(rows[id], false);
      if stored.Failure? {
        return Raised(stored.error);
      }
      if stored.value == SoftwareArea {
        outcome := MoveThenCommit(id, SoftwareArea, Quarantine, Ready, now, plan);
      } else {
        outcome := CommitTransition(id, Ready, now, plan);
      }
    }

    /** The protocol shared by publish and restore_ready: move, commit, and on failure move back. */
    method MoveThenCommit(id: nat, src: Area, dst: Area, target: FileStatus, now: int, plan: Plan)
      returns (outcome: Outcome)
      requires Valid() && id in rows && src != dst
      requires CanMove(Storage(), Stored(src, rows[id].path), Stored(dst, rows[id].path))
      modifies this`rows, this`files, this`origin
      ensures Valid()
      ensures outcome.Raised? ==> State() == old(State())
      ensures var changed := Transitioned(releases, softwares, old(rows[id]), target, now);
              && (outcome == Done ==> changed.Success? && changed.value.path == old(rows[id].path)
                                      && State() == Shifted(old(State()), id, changed.value, src, dst))
              && (plan.Quiet() ==> outcome == if changed.Success? then Done else Raised(changed.error))
              && (|| State() == old(State())
                  || MovedOnly(old(State()), id, src, dst, State())
                  || (changed.Success? && changed.value.path == old(rows[id].path)
                      && State() == Shifted(old(State()), id, changed.value, src, dst)))
      ensures plan.Steady() ==> outcome == Done || outcome.Raised?
      ensures old(Survives(env, rows, Storage())) ==> Survives(env, rows, Storage())
    {
      hide Survives, WellFormed, Transitioned;
      var path := rows[id].path;
      ghost var before := Storage();
      var moved := AtomicMove(Stored(src, path), Stored(dst, path), plan.moveFails);
      if !moved {
        return Raised(StorageError);
      }
      if Survives(env, rows, before) {
        MoveKeepsSurvival(env, rows, before, Stored(src, path), Stored(dst, path));
      }
      if plan.StopsAt(1) {
        return Stopped;
      }
      outcome := CommitTransition(id, target, now, plan);
      if outcome.Raised? {
        MoveAndBack(before, Stored(src, path), Stored(dst, path));
        if plan.StopsAt(2) {
          return Stopped;
        }
        var undone := AtomicMove(Stored(dst, path), Stored(src, path), plan.undoFails);
        if !undone {
          return CompensationFailed;
        }
      }
    }

    /** The row goes, the file stays. */
    method DeleteMetadata(id: nat, plan: Plan) returns (outcome: Outcome)
      requires Valid()
      modifies this`rows, this`abandoned, daily
      ensures Obeys(outcome, plan, AtomicDeleteMetadata(old(State()), id))
      ensures Whole(AtomicDeleteMetadata(old(State()), id))
    {
      if id !in rows {
        return Raised(EntityNotFound);
      }
      if rows[id].status == Published {
        return Raised(InvalidStateTransition);
      }
      var path := rows[id].path;
      var matches := InspectStoredFiles(path);
      if |matches| > 1 {
        return Raised(StorageError);
      }
      if plan.commitFails {
        return Raised(StorageError);
      }
      if Survives(env, rows, Storage()) {
        RowDropKeepsSurvival(env, rows, Storage(), id);
      }
      rows := rows - {id};
      daily.rows := WithoutFile(daily.rows, id);
      abandoned := abandoned + set a | a in matches :: Stored(a, path);
      outcome := if plan.StopsAt(0) then Stopped else Done;
    }

    /** The transaction that deletes one row; its download rows go with it. */
    method CommitRowDeletion(id: nat, plan: Plan) returns (outcome: Outcome)
      requires id in rows
      modifies this`rows, daily
      ensures outcome == if plan.commitFails then Raised(StorageError) else Done
      ensures outcome.Raised? ==> rows == old(rows) && daily.rows == old(daily.rows)
      ensures outcome == Done ==> rows == old(rows) - {id} && daily.rows == WithoutFile(old(daily.rows), id)
    {
      if plan.commitFails {
        return Raised(StorageError);
      }
      rows := rows - {id};
      daily.rows := WithoutFile(daily.rows, id);
      outcome := Done;
    }

    /** Hides the file below the temporary root, deletes the row, then removes the hidden file. If
        the transaction fails, the file is brought back; if the removal fails, it stays hidden. */
    method PermanentlyDelete(id: nat, token: string, plan: Plan) returns (outcome: Outcome)
      requires Valid()
      modifies this`rows, this`files, this`origin, daily
      ensures outcome != StagedCleanupFailed ==>
                Obeys(outcome, plan, AtomicPermanentlyDelete(env, old(State()), id, StagingPlace(token)))
      ensures Whole(AtomicPermanentlyDelete(env, old(State()), id, StagingPlace(token)))
              || Partway(old(State()), Command.PermanentlyDelete(id, token), State())
      ensures outcome == StagedCleanupFailed ==>
                && plan.unlinkFails
                && Leftover(old(State()), Command.PermanentlyDelete(id, token), State())
                && AtomicPermanentlyDelete(env, old(State()), id, StagingPlace(token)).Success?
                && var area := Verified(env, old(files), old(rows[id]), false).value;
                   State() == WithoutRow(old(State()), id).(disk := Moved(old(Storage()), Stored(area, old(rows[id].path)), StagingPlace(token)))
      ensures Valid() && (old(Survives(env, rows, Storage())) ==> Survives(env, rows, Storage()))
      ensures plan.Steady() ==> outcome != Stopped && outcome != CompensationFailed
    {
      hide Survives, WellFormed;
      if id !in rows {
        return Raised(EntityNotFound);
      }
      if rows[id].status == Published {
        return Raised(InvalidStateTransition);
      }
      var stored := VerifiedPhysicalFile(rows[id], false);
      if stored.Failure? {
        return Raised(stored.error);
      }
      outcome := StageThenDelete(id, Stored(stored.value, rows[id].path), StagingPlace(token), plan);
    }

    /** The protocol behind permanently_delete, for a file that was found alone at its path. */
    method StageThenDelete(id: nat, place: Place, staged: Place, plan: Plan) returns (outcome: Outcome)
      requires Valid() && id in rows && place.Stored? && IsStagingPlace(staged)
      requires place in files && place.path == rows[id].path && Locate(files, place.path) == Some(place.area)
      modifies this`rows, this`files, this`origin, daily
      ensures outcome == Done ==>
                && staged !in old(files)
                && State() == WithoutRow(old(State()), id).(disk := Unlinked(old(Storage()), place))
      ensures outcome.Raised? ==> State() == old(State())
      ensures outcome == StagedCleanupFailed ==>
                && plan.unlinkFails
                && staged !in old(files)
                && State() == WithoutRow(old(State()), id).(disk := Moved(old(Storage()), place, staged))
      ensures || State() == old(State())
              || StagedOnly(old(State()), id, staged, false, State()) || StagedOnly(old(State()), id, staged, true, State())
              || (staged !in old(files) && State() == WithoutRow(old(State()), id).(disk := Unlinked(old(Storage()), place)))
      ensures plan.Quiet() ==> outcome == if staged in old(files) then Raised(StorageError) else Done
      ensures plan.Steady() ==> outcome != Stopped && outcome != CompensationFailed
      ensures Valid() && (old(Survives(env, rows, Storage())) ==> Survives(env, rows, Storage()))
    {
      hide Survives, WellFormed, Locate;
      ghost var before := Storage();
      var moved := AtomicMove(place, staged, plan.moveFails);
      if !moved {
        return Raised(StorageError);
      }
      MoveAndBack(before, place, staged);
      if Survives(env, rows, before) {
        MoveKeepsSurvival(env, rows, before, place, staged);
      }
      if plan.StopsAt(1) {
        return Stopped;
      }
      if Survives(env, rows, before) {
        RowDropKeepsSurvival(env, rows, Storage(), id);
        UnlinkKeepsSurvival(env, rows - {id}, Storage(), staged);
      }
      outcome := CommitRowDeletion(id, plan);
      if outcome.Raised? {
        if plan.StopsAt(2) {
          return Stopped;
        }
        var restored := AtomicMove(staged, place, plan.undoFails);
        if !restored {
          return CompensationFailed;
        }
        var located := LocateStoredFile(place.path);
        if located == None {
          return CompensationFailed;
        }
        return;
      }
      if plan.StopsAt(3) {
        return Stopped;
      }
      var unlinked := UnlinkStaged(staged, plan.unlinkFails);
      if !unlinked {
        return StagedCleanupFailed;
      }
      StagedAndGone(before, place, staged);
      outcome := if plan.StopsAt(4) then Stopped else Done;
    }

    /** unlink_staged_deletion: raises for a file that is not there or cannot be removed. */
    method UnlinkStaged(staged: Place, fails: bool) returns (ok: bool)
      modifies this`files, this`origin
      ensures ok == (!fails && staged in old(files))
      ensures Storage() == if ok then Unlinked(old(Storage()), staged) else old(Storage())
      ensures old(Valid()) ==> Valid()
    {
      if staged !in files || fails {
        return false;
      }
      files := files - {staged};
      origin := origin - {staged};
      ok := true;
    }

    /** Changes made by the software and release services. No service deletes a software entry or a
        release, so a change that would leave a file without its parents is refused here. */
    method SetParents(releases: map<nat, Release>, softwares: map<nat, Software>)
      modifies this`releases, this`softwares
      ensures State() == match AtomicSetParents(old(State()), releases, softwares)
                         case Success(s) => s
                         case Failure(_) => old(State())
    {
      if forall id | id in rows :: HasParents(rows[id], releases, softwares) {
        this.releases, this.softwares := releases, softwares;
      }
    }

    // ---- UploadService ----

    /** Streams the upload below the temporary root, checks it, moves it into quarantine and commits
        its row. Any error removes both files again; an error of that removal is only logged. */
    method UploadReleaseFile(r: UploadRequest, plan: Plan) returns (outcome: Outcome)
      requires Valid()
      modifies this`rows, this`files, this`origin
      ensures Valid()
      ensures outcome == Done ==> AtomicUpload(env, old(State()), r, maxSize) == Success(State())
      ensures outcome.Raised? && !plan.undoFails && UploadPlace(r.token) !in old(files) ==> State() == old(State())
      ensures outcome.Raised? ==> rows == old(rows)
      ensures plan.Quiet() ==> outcome == Expected(AtomicUpload(env, old(State()), r, maxSize))
      ensures plan.Steady() ==> outcome == Done || outcome.Raised?
      ensures Whole(AtomicUpload(env, old(State()), r, maxSize)) || Partway(old(State()), Upload(r, maxSize), State())
      ensures outcome.Raised? && !plan.undoFails ==> State() == old(State()) || UploadRemovesOther(old(State()), r, State())
      ensures old(Survives(env, rows, Storage()) && Fresh(State(), Upload(r, maxSize))) ==> Survives(env, rows, Storage())
    {
      hide Survives;
      if r.releaseId !in releases || releases[r.releaseId].softwareId !in softwares {
        return Raised(EntityNotFound);
      }
      if !r.filenameValid {
        return Raised(FileValidationError);
      }
      var temporary := UploadPlace(r.token);
      ghost var before := Storage();
      var streamed := StreamToTemporary(r, temporary, plan);
      if streamed == None {
        return Stopped;
      }
      var copied := streamed.value;
      if copied.Failure? {
        return Raised(copied.error);
      }
      if plan.StopsAt(1) {
        return Stopped;
      }
      outcome := QuarantineAndPersist(r, temporary, copied.value, before, plan);
    }

    /** stream_upload_to_temporary: a failed copy removes the temporary file, whoever created it. A
        stop may come at any read or write of the copy: step 0 is the one at which the copy ends. */
    method StreamToTemporary(r: UploadRequest, temporary: Place, plan: Plan)
      returns (streamed: Option<Result<CopyResult, Error>>)
      requires Valid() && temporary == UploadPlace(r.token)
      modifies this`files, this`origin
      ensures Valid()
      ensures streamed.None? <==> plan.StopsAt(0)
      ensures streamed.Some? && streamed.value.Success? ==>
                && temporary !in old(files)
                && Storage() == old(Storage()).(files := old(files)[temporary := r.data])
                && streamed.value.value == CopyResult(|r.data|, env.hash(r.data), Sample(env, r.data))
                && 0 < |r.data| <= maxSize
      ensures streamed.Some? && streamed.value.Failure? && !plan.undoFails && temporary !in old(files) ==> Storage() == old(Storage())
      ensures streamed.Some? && streamed.value.Failure? && !plan.undoFails ==>
                Storage() == old(Storage()) || (temporary in old(files) && Storage() == Unlinked(old(Storage()), temporary))
      ensures || Storage() == old(Storage())
              || (temporary in old(files) && Storage() == Unlinked(old(Storage()), temporary))
              || (temporary !in old(files)
                  && exists written :: written <= r.data && Storage() == WithFile(old(Storage()), temporary, written))
      ensures plan.Quiet() ==>
                (streamed.value.Failure? <==> temporary in old(files) || |r.data| > maxSize || r.data == [])
      ensures plan.Quiet() && streamed.value.Failure? ==>
                streamed.value.error == if temporary in old(files) then StorageError
                                        else if |r.data| > maxSize then Error.PayloadTooLarge else FileValidationError
      ensures old(Survives(env, rows, Storage())) ==> Survives(env, rows, Storage())
    {
      hide Survives, WellFormed;
      ghost var before := Storage();
      var source := new Source(r.data, plan.stream.cut, plan.stream.readFails);
      var descriptor := new Descriptor(plan.stream.accepts, plan.stream.writeFails);
      var opens := temporary !in files;
      var result := CopyStream(env.hash, source, descriptor, opens, plan.stream.syncs, maxSize, chunkSize, env.sampleSize);
      TemporaryRoundTrip(env, rows, before, r.token, descriptor.content);
      if opens {
        files := files[temporary := descriptor.content];
      }
      assert opens ==> Storage() == WithFile(before, temporary, descriptor.content);
      if plan.StopsAt(0) {
        return None;
      }
      if result.Success? {
        return Some(Success(result.value));
      }
      UnlinkQuietly(temporary, plan.undoFails);
      streamed := Some(Failure(match result.error
        case EmptyFile => FileValidationError
        case PayloadTooLarge => Error.PayloadTooLarge
        case StorageFailure => StorageError));
    }

    /** The move into quarantine and the transaction, with their common clean-up. */
    method QuarantineAndPersist(r: UploadRequest, temporary: Place, copied: CopyResult, ghost before: Disk, plan: Plan)
      returns (outcome: Outcome)
      requires Valid() && temporary == UploadPlace(r.token) && temporary !in before.files
      requires WellFormed(before) && Storage() == before.(files := before.files[temporary := r.data])
      requires copied == CopyResult(|r.data|, env.hash(r.data), Sample(env, r.data))
      modifies this`rows, this`files, this`origin
      ensures Valid()
      ensures outcome == Done ==>
                && Stored(Quarantine, r.path) !in before.files && r.metadataValid && !ViolatesUniqueness(old(rows), r)
                && State() == Inserted(env, old(State()).(disk := before), r)
      ensures outcome.Raised? ==> rows == old(rows)
      ensures outcome.Raised? && !plan.undoFails ==> Storage() == before
      ensures || State() == old(State()).(disk := before) || State() == old(State())
              || (Stored(Quarantine, r.path) !in before.files
                  && State() == old(State()).(disk := before.(files := before.files[Stored(Quarantine, r.path) := r.data])))
              || (Stored(Quarantine, r.path) !in before.files && r.metadataValid && !ViolatesUniqueness(old(rows), r)
                  && State() == Inserted(env, old(State()).(disk := before), r))
      ensures plan.Quiet() ==>
                outcome == if Stored(Quarantine, r.path) in before.files then Raised(StorageError)
                           else if !r.metadataValid then Raised(ValidationError)
                           else if ViolatesUniqueness(old(rows), r) then Raised(StorageError) else Done
      ensures plan.Steady() ==> outcome == Done || outcome.Raised?
      ensures old(Survives(env, rows, before)) && (forall place :: !IsCopyOf(before, place, r.path)) ==>
                Survives(env, rows, Storage())
    {
      hide Survives, WellFormed, IsCopyOf, CanMove, Moved, Unlinked;
      var assessment := AssessSample(env.fold, r.extension, copied.sample);
      var quarantined := Stored(Quarantine, r.path);
      QuarantineRoundTrip(env, rows, before, r);
      var moved := AtomicMove(temporary, quarantined, plan.moveFails);
      if !moved {
        UnlinkQuietly(temporary, plan.undoFails);
        return Raised(StorageError);
      }
      if plan.StopsAt(2) {
        return Stopped;
      }
      if !r.metadataValid || plan.commitFails || ViolatesUniqueness(rows, r) {
        UnlinkQuietly(temporary, plan.undoFails);
        UnlinkQuietly(quarantined, plan.undoFails);
        return Raised(if r.metadataValid then StorageError else ValidationError);
      }
      var status := InitialStatus(assessment, r.scanner);
      rows := rows[r.id := FileRow(r.releaseId, r.publicUuid, r.displayFilename, r.path, r.extension,
                                   StoredMimeType(copied.sample), copied.sizeBytes, copied.sha256, status,
                                   r.visibility, r.scanner, None, None, 0)];
      outcome := if plan.StopsAt(3) then Stopped else Done;
    }

    method SetFileVisibility(id: nat, visibility: Visibility, plan: Plan) returns (outcome: Outcome)
      requires Valid()
      modifies this`rows
      ensures Obeys(outcome, plan, AtomicSetVisibility(old(State()), id, visibility))
      ensures Whole(AtomicSetVisibility(old(State()), id, visibility))
    {
      if id !in rows {
        return Raised(EntityNotFound);
      }
      if plan.commitFails {
        return Raised(StorageError);
      }
      if Survives(env, rows, Storage()) {
        RowUpdateKeepsSurvival(env, rows, Storage(), id, rows[id].(visibility := visibility));
      }
      rows := rows[id := rows[id].(visibility := visibility)];
      outcome := if plan.StopsAt(0) then Stopped else Done;
    }
  }

  /** A temporary upload is no staged deletion: writing and removing it affects nothing else. */
  lemma TemporaryRoundTrip(env: Env, rows: map<nat, FileRow>, d: Disk, token: string, data: Bytes)
    requires WellFormed(d)
    ensures var t := d.(files := d.files[UploadPlace(token) := data]);
            && WellFormed(t) && WellFormed(Unlinked(t, UploadPlace(token))) && WellFormed(Unlinked(d, UploadPlace(token)))
            && (UploadPlace(token) !in d.files ==> Unlinked(t, UploadPlace(token)) == d)
            && (Survives(env, rows, d) ==>
                  && Survives(env, rows, t)
                  && Survives(env, rows, Unlinked(t, UploadPlace(token)))
                  && Survives(env, rows, Unlinked(d, UploadPlace(token))))
  {
    var temporary := UploadPlace(token);
    var t := d.(files := d.files[temporary := data]);
    assert !IsStagingPlace(temporary);
    assert temporary !in d.origin && d.origin - {temporary} == d.origin;
    if temporary !in d.files {
      assert t.files - {temporary} == d.files;
    }
    if Survives(env, rows, d) {
      TemporaryWriteKeepsSurvival(env, rows, d, temporary, data);
      UnlinkKeepsSurvival(env, rows, t, temporary);
      UnlinkKeepsSurvival(env, rows, d, temporary);
    }
  }

  /** The disk along the way of an upload, and back. */
  lemma QuarantineRoundTrip(env: Env, rows: map<nat, FileRow>, d: Disk, r: UploadRequest)
    requires WellFormed(d) && UploadPlace(r.token) !in d.files
    ensures var temporary, quarantined := UploadPlace(r.token), Stored(Quarantine, r.path);
            var streamed := d.(files := d.files[temporary := r.data]);
            var stored := d.(files := d.files[quarantined := r.data]);
            && Unlinked(streamed, temporary) == d
            && (CanMove(streamed, temporary, quarantined) <==> quarantined !in d.files)
            && (quarantined !in d.files ==>
                  && WellFormed(stored)
                  && Moved(streamed, temporary, quarantined) == stored == Unlinked(stored, temporary)
                  && Unlinked(stored, quarantined) == d)
    ensures Survives(env, rows, d) && (forall place :: !IsCopyOf(d, place, r.path)) ==>
              var stored := d.(files := d.files[Stored(Quarantine, r.path) := r.data]);
              && Survives(env, rows, d.(files := d.files[UploadPlace(r.token) := r.data]))
              && Survives(env, rows, stored)
              && (r.id !in rows ==> Survives(env, rows[r.id := NewRow(env, r)], stored))
  {
    var temporary, quarantined := UploadPlace(r.token), Stored(Quarantine, r.path);
    var streamed := d.(files := d.files[temporary := r.data]);
    var stored := d.(files := d.files[quarantined := r.data]);
    TemporaryRoundTrip(env, rows, d, r.token, r.data);
    assert !IsStagingPlace(temporary) && !IsStagingPlace(quarantined);
    assert temporary !in d.origin && d.origin - {temporary} == d.origin == d.origin - {quarantined};
    if quarantined !in d.files {
      assert (streamed.files - {temporary})[quarantined := r.data] == stored.files;
      assert stored.files - {temporary} == stored.files && stored.files - {quarantined} == d.files;
    }
    if Survives(env, rows, d) && forall place :: !IsCopyOf(d, place, r.path) {
      assert !IsCopyOf(d, quarantined, r.path);
      UncopiedIsUnreferenced(env, rows, d, r.path);
      MoveKeepsSurvival(env, rows, streamed, temporary, quarantined);
      if r.id !in rows {
        QuarantinedIsOnlyCopy(env, d, r);
        RowInsertKeepsSurvival(env, rows, stored, r.id, NewRow(env, r), quarantined);
      }
    }
  }

  lemma QuarantinedIsOnlyCopy(env: Env, d: Disk, r: UploadRequest)
    requires forall place :: !IsCopyOf(d, place, r.path)
    ensures IsOnlyCopy(env, d.(files := d.files[Stored(Quarantine, r.path) := r.data]), NewRow(env, r), Stored(Quarantine, r.path))
  {
    var t := d.(files := d.files[Stored(Quarantine, r.path) := r.data]);
    forall other | IsCopyOf(t, other, r.path)
      ensures other == Stored(Quarantine, r.path)
    {
      assert !IsCopyOf(d, other, r.path);
    }
  }

  /** A path without a copy belongs to no surviving row. */
  lemma UncopiedIsUnreferenced(env: Env, rows: map<nat, FileRow>, d: Disk, path: Path)
    requires Survives(env, rows, d) && forall place :: !IsCopyOf(d, place, path)
    ensures !Referenced(rows, path)
  {
    forall id | id in rows
      ensures rows[id].path != path
    {
      assert Held(env, d, rows[id]);
    }
  }

  /** Staging a file and then removing it removes the file. */
  lemma StagedAndGone(d: Disk, place: Place, staged: Place)
    requires WellFormed(d) && CanMove(d, place, staged) && place.Stored? && staged.Temporary?
    ensures Unlinked(Moved(d, place, staged), staged) == Unlinked(d, place)
  {
    assert (d.files - {place})[staged := d.files[place]] - {staged} == d.files - {place};
    assert staged !in d.origin && place !in d.origin;
    assert d.origin[staged := place.path] - {staged} == d.origin;
    assert d.origin - {place} == d.origin;
  }
}
