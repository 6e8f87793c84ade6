/** What the file lifecycle would do if the database and the storage shared one transaction. Each
    operation either succeeds as a whole or fails without effect; the invariant is proved over
    every run of them. `FileService.dfy` proves that the real step-by-step operations, which move
    first and commit second, amount to this. */
module Lifecycle {
  import opened Prelude
  import opened Signatures
  import opened Policies
  import opened DownloadStats
  import opened StorageState

  // ---- The invariant ----

  /** A row at rest: its file lies in exactly one area, one that its status allows, intact; nothing
      staged for deletion came from its path; it has passed the screening its status needs; and its
      dates fit its status. */
  ghost predicate Settled(env: Env, d: Disk, row: FileRow) {
    var area := Locate(d.files, row.path);
    && area.Some?
    && AreaAllowed(row.status, area.value)
    && Faithful(env, row, d.files[Stored(area.value, row.path)])
    && (forall place :: place in d.origin ==> d.origin[place] != row.path)
    && Screened(env.fold, row)
    && Stamped(row)
  }

  ghost predicate AllSettled(env: Env, rows: map<nat, FileRow>, d: Disk) {
    forall id :: id in rows ==> Settled(env, d, rows[id])
  }

  /** The unique columns. */
  ghost predicate Indexed(rows: map<nat, FileRow>) {
    && UniquePaths(rows)
    && forall i, j :: i in rows && j in rows && i != j ==> rows[i].publicUuid != rows[j].publicUuid
  }

  /** The foreign keys. */
  predicate HasParents(row: FileRow, releases: map<nat, Release>, softwares: map<nat, Software>) {
    row.releaseId in releases && releases[row.releaseId].softwareId in softwares
  }

  ghost predicate AllHaveParents(rows: map<nat, FileRow>, releases: map<nat, Release>, softwares: map<nat, Software>) {
    forall id :: id in rows ==> HasParents(rows[id], releases, softwares)
  }

  predicate IsOrphan(rows: map<nat, FileRow>, place: Place) {
    place.Stored? && !Referenced(rows, place.path)
  }

  /** The files without a row are exactly those whose metadata was deleted on its own. */
  ghost predicate OrphansAreAbandoned(rows: map<nat, FileRow>, files: Files, abandoned: set<Place>) {
    forall place :: place in abandoned <==> place in files && IsOrphan(rows, place)
  }

  ghost predicate CountAgrees(row: FileRow, days: Days) {
    Total(days).downloads == row.downloadCount == Total(days).successful
  }

  /** Each file's total equals the sum of its daily rows, and of its successful downloads. */
  ghost predicate CountsAgree(rows: map<nat, FileRow>, stats: Stats) {
    && stats.Keys <= rows.Keys
    && forall id :: id in rows ==> CountAgrees(rows[id], DaysOf(stats, id))
  }

  ghost predicate Consistent(env: Env, s: Snapshot) {
    && WellFormed(s.disk)
    && Indexed(s.rows)
    && AllSettled(env, s.rows, s.disk)
    && AllHaveParents(s.rows, s.releases, s.softwares)
    && OrphansAreAbandoned(s.rows, s.disk.files, s.abandoned)
    && CountsAgree(s.rows, s.stats)
  }

  lemma SettledIsHeld(env: Env, d: Disk, row: FileRow)
    requires Settled(env, d, row)
    ensures Held(env, d, row)
  {
    hide Faithful, Screened, Stamped;
    var place := Stored(Locate(d.files, row.path).value, row.path);
    LocatedAlone(d.files, row.path, place.area);
    assert IsOnlyCopy(env, d, row, place);
  }

  lemma ConsistentSurvives(env: Env, s: Snapshot)
    requires Consistent(env, s)
    ensures Survives(env, s.rows, s.disk)
  {
    hide Settled, Held;
    forall id | id in s.rows
      ensures Held(env, s.disk, s.rows[id])
    {
      SettledIsHeld(env, s.disk, s.rows[id]);
    }
  }

  // ---- The operations ----

  /** What an upload brings: the file, the identifiers the server generates, and the outcome of the
      checks that lie outside the model. */
  datatype UploadRequest = UploadRequest(
    id: nat, releaseId: nat, publicUuid: string, path: Path, token: string, extension: string,
    displayFilename: string, data: Bytes, scanner: ScannerStatus, visibility: Visibility,
    filenameValid: bool, metadataValid: bool)

  datatype Command =
    | Upload(request: UploadRequest, maxSize: nat)
    | Review(id: nat, target: FileStatus)
    | Publish(id: nat)
    | Disable(id: nat)
    | Archive(id: nat)
    | RestoreReady(id: nat)
    | DeleteMetadata(id: nat)
    | PermanentlyDelete(id: nat, token: string)
    | SetVisibility(id: nat, visibility: Visibility)
    | SetParents(releases: map<nat, Release>, softwares: map<nat, Software>)
    | RecordDownload(id: nat, day: int)
    | RecordBlocked(id: nat, day: int)
    | CleanOrphans
    | CleanTemporary(deleted: set<Place>)

  function NewRow(env: Env, r: UploadRequest): FileRow {
    var sample := Sample(env, r.data);
    FileRow(r.releaseId, r.publicUuid, r.displayFilename, r.path, r.extension, StoredMimeType(sample),
            |r.data|, env.hash(r.data), InitialStatus(AssessSample(env.fold, r.extension, sample), r.scanner),
            r.visibility, r.scanner, None, None, 0)
  }

  predicate ViolatesUniqueness(rows: map<nat, FileRow>, r: UploadRequest) {
    r.id in rows || Referenced(rows, r.path) || exists id | id in rows :: rows[id].publicUuid == r.publicUuid
  }

  function AtomicUpload(env: Env, s: Snapshot, r: UploadRequest, maxSize: nat): Result<Snapshot, Error> {
    if r.releaseId !in s.releases || s.releases[r.releaseId].softwareId !in s.softwares then Failure(EntityNotFound)
    else if !r.filenameValid then Failure(FileValidationError)
    else if UploadPlace(r.token) in s.disk.files then Failure(StorageError)
    else if |r.data| > maxSize then Failure(PayloadTooLarge)
    else if r.data == [] then Failure(FileValidationError)
    else if Stored(Quarantine, r.path) in s.disk.files then Failure(StorageError)
    else if !r.metadataValid then Failure(ValidationError)
    else if ViolatesUniqueness(s.rows, r) then Failure(StorageError)
    else Success(Inserted(env, s, r))
  }

  /** _verified_physical_file */
  function Verified(env: Env, files: Files, row: FileRow, verifyHash: bool): (area: Result<Area, Error>)
    ensures area.Success? ==> Locate(files, row.path) == Some(area.value)
    ensures area.Success? ==> Stored(area.value, row.path) in files
  {
    match Locate(files, row.path)
    case None => Failure(StorageError)
    case Some(area) =>
      var data := files[Stored(area, row.path)];
      if |data| != row.size then Failure(FileValidationError)
      else if verifyHash && env.hash(data) != row.sha256 then Failure(FileValidationError)
      else Success(area)
  }

  /** apply_file_transition with the row's own parents, which the foreign keys guarantee. */
  function Transitioned(releases: map<nat, Release>, softwares: map<nat, Software>, row: FileRow, target: FileStatus, now: int)
    : Result<FileRow, Error>
  {
    if !HasParents(row, releases, softwares) then Failure(EntityNotFound)
    else
      var release := releases[row.releaseId];
      ApplyFileTransition(row, release, softwares[release.softwareId], target, now)
  }

  /** _ensure_publish_ready with the row's own parents. */
  function BarrierFor(env: Env, releases: map<nat, Release>, softwares: map<nat, Software>, row: FileRow): Option<Error> {
    if !HasParents(row, releases, softwares) then Some(EntityNotFound)
    else
      var release := releases[row.releaseId];
      PublishBarrier(env.fold, row, release, softwares[release.softwareId])
  }

  /** The row and the place of its file change together. */
  function Shifted(s: Snapshot, id: nat, row: FileRow, src: Area, dst: Area): Snapshot
    requires src != dst ==> CanMove(s.disk, Stored(src, row.path), Stored(dst, row.path))
  {
    s.(rows := s.rows[id := row],
       disk := if src == dst then s.disk else Moved(s.disk, Stored(src, row.path), Stored(dst, row.path)))
  }

  function AtomicReview(env: Env, s: Snapshot, id: nat, target: FileStatus, now: int): Result<Snapshot, Error> {
    if target !in {Ready, Rejected, Quarantined} then Failure(InvalidStateTransition)
    else if id !in s.rows then Failure(EntityNotFound)
    else
      match Verified(env, s.disk.files, s.rows[id], false)
      case Failure(error) => Failure(error)
      case Success(area) =>
        if area != Quarantine then Failure(StorageError) else
          match Transitioned(s.releases, s.softwares, s.rows[id], target, now)
          case Failure(error) => Failure(error)
          case Success(row) => Success(s.(rows := s.rows[id := row]))
  }

  function AtomicPublish(env: Env, s: Snapshot, id: nat, now: int): Result<Snapshot, Error> {
    if id !in s.rows then Failure(EntityNotFound)
    else
      var barrier := BarrierFor(env, s.releases, s.softwares, s.rows[id]);
      if barrier.Some? then Failure(barrier.value) else
      match Verified(env, s.disk.files, s.rows[id], true)
      case Failure(error) => Failure(error)
      case Success(area) =>
        if area != Quarantine then Failure(StorageError) else
          match Transitioned(s.releases, s.softwares, s.rows[id], Published, now)
          case Failure(error) => Failure(error)
          case Success(row) => Success(Shifted(s, id, row, Quarantine, SoftwareArea))
  }

  /** disable and archive: the file stays where it is. */
  function AtomicTransition(env: Env, s: Snapshot, id: nat, target: FileStatus, now: int): Result<Snapshot, Error> {
    if id !in s.rows then Failure(EntityNotFound)
    else
      match Verified(env, s.disk.files, s.rows[id], false)
      case Failure(error) => Failure(error)
      case Success(_) =>
        match Transitioned(s.releases, s.softwares, s.rows[id], target, now)
        case Failure(error) => Failure(error)
        case Success(row) => Success(s.(rows := s.rows[id := row]))
  }

  function AtomicRestoreReady(env: Env, s: Snapshot, id: nat, now: int): Result<Snapshot, Error> {
    if id !in s.rows then Failure(EntityNotFound)
    else
      match Verified(env, s.disk.files, s.rows[id], false)
      case Failure(error) => Failure(error)
      case Success(area) =>
        match Transitioned(s.releases, s.softwares, s.rows[id], Ready, now)
        case Failure(error) => Failure(error)
        case Success(row) => Success(Shifted(s, id, row, area, Quarantine))
  }

  function WithoutRow(s: Snapshot, id: nat): Snapshot {
    s.(rows := s.rows - {id}, stats := WithoutFile(s.stats, id))
  }

  /** Only the metadata goes; the file, if there is one, is left behind. */
  function AtomicDeleteMetadata(s: Snapshot, id: nat): Result<Snapshot, Error> {
    if id !in s.rows then Failure(EntityNotFound)
    else if s.rows[id].status == Published then Failure(InvalidStateTransition)
    else
      var path := s.rows[id].path;
      var areas := StoredAreas(s.disk.files, path);
      if |areas| > 1 then Failure(StorageError)
      else Success(WithoutRow(s, id).(abandoned := s.abandoned + set a | a in areas :: Stored(a, path)))
  }

  /** `staged` is where the file waits in between; a name already in use stops the deletion. */
  function AtomicPermanentlyDelete(env: Env, s: Snapshot, id: nat, staged: Place): Result<Snapshot, Error> {
    if id !in s.rows then Failure(EntityNotFound)
    else if s.rows[id].status == Published then Failure(InvalidStateTransition)
    else
      match Verified(env, s.disk.files, s.rows[id], false)
      case Failure(error) => Failure(error)
      case Success(area) =>
        if staged in s.disk.files then Failure(StorageError)
        else Success(WithoutRow(s, id).(disk := Unlinked(s.disk, Stored(area, s.rows[id].path))))
  }

  function AtomicSetVisibility(s: Snapshot, id: nat, visibility: Visibility): Result<Snapshot, Error> {
    if id !in s.rows then Failure(EntityNotFound)
    else Success(s.(rows := s.rows[id := s.rows[id].(visibility := visibility)]))
  }

  /** Whatever the software and release services do to statuses and visibility. No service deletes a
      software entry or a release, so the parents of every file stay in place. */
  function AtomicSetParents(s: Snapshot, releases: map<nat, Release>, softwares: map<nat, Software>)
    : Result<Snapshot, Error>
  {
    if forall id | id in s.rows :: s.rows[id].releaseId in releases && releases[s.rows[id].releaseId].softwareId in softwares
    then Success(s.(releases := releases, softwares := softwares))
    else Failure(StorageError)
  }

  function AtomicRecordDownload(s: Snapshot, id: nat, day: int): Result<Snapshot, Error> {
    if id !in s.rows then Failure(StorageError)
    else Success(s.(rows := s.rows[id := s.rows[id].(downloadCount := s.rows[id].downloadCount + 1)],
                    stats := Upserted(s.stats, id, day, AUTHORIZED)))
  }

  function AtomicRecordBlocked(s: Snapshot, id: nat, day: int): Result<Snapshot, Error> {
    if id !in s.rows then Failure(StorageError)
    else Success(s.(stats := Upserted(s.stats, id, day, BLOCKED)))
  }

  /** cleanup_orphans without I/O errors. */
  function OrphansCleaned(s: Snapshot): Snapshot {
    s.(disk := s.disk.(files := map place | place in s.disk.files && !IsOrphan(s.rows, place) :: s.disk.files[place]),
       abandoned := s.abandoned - set place | place in s.disk.files && IsOrphan(s.rows, place))
  }

  /** cleanup_temporary_files, for the files it managed to delete out of those it walked over. */
  function TemporaryCleaned(d: Disk, deleted: set<Place>): Disk {
    d.(files := d.files - set place | place in deleted && place.Temporary? && IsTemporaryFilename(place.name))
  }

  function Apply(env: Env, s: Snapshot, command: Command, now: int): Result<Snapshot, Error> {
    match command
    case Upload(request, maxSize) => AtomicUpload(env, s, request, maxSize)
    case Review(id, target) => AtomicReview(env, s, id, target, now)
    case Publish(id) => AtomicPublish(env, s, id, now)
    case Disable(id) => AtomicTransition(env, s, id, Disabled, now)
    case Archive(id) => AtomicTransition(env, s, id, Archived, now)
    case RestoreReady(id) => AtomicRestoreReady(env, s, id, now)
    case DeleteMetadata(id) => AtomicDeleteMetadata(s, id)
    case PermanentlyDelete(id, token) => AtomicPermanentlyDelete(env, s, id, StagingPlace(token))
    case SetVisibility(id, visibility) => AtomicSetVisibility(s, id, visibility)
    case SetParents(releases, softwares) => AtomicSetParents(s, releases, softwares)
    case RecordDownload(id, day) => AtomicRecordDownload(s, id, day)
    case RecordBlocked(id, day) => AtomicRecordBlocked(s, id, day)
    case CleanOrphans => Success(OrphansCleaned(s))
    case CleanTemporary(deleted) => Success(s.(disk := TemporaryCleaned(s.disk, deleted)))
  }

  /** The identifiers generated for an upload are new: no file lies at, or was staged from, its path,
      and none has its temporary name. */
  ghost predicate Fresh(s: Snapshot, command: Command) {
    command.Upload? ==>
      && UploadPlace(command.request.token) !in s.disk.files
      && forall place :: !IsCopyOf(s.disk, place, command.request.path)
  }

  // ---- Every operation keeps the invariant ----

  /** Whether a row is settled depends on the two spots its file may have, and on the staged files. */
  lemma SettledFrame(env: Env, d: Disk, t: Disk, row: FileRow)
    requires Settled(env, d, row) && t.origin.Keys <= d.origin.Keys
    requires forall place :: place in t.origin ==> t.origin[place] == d.origin[place]
    requires forall area :: Stored(area, row.path) in t.files <==> Stored(area, row.path) in d.files
    requires forall area :: Stored(area, row.path) in t.files ==>
               t.files[Stored(area, row.path)] == d.files[Stored(area, row.path)]
    ensures Settled(env, t, row)
  {
  }

  lemma OrphansFrame(rows: map<nat, FileRow>, files: Files, newRows: map<nat, FileRow>, newFiles: Files, abandoned: set<Place>)
    requires OrphansAreAbandoned(rows, files, abandoned)
    requires forall place :: place in newFiles && IsOrphan(newRows, place) <==> place in files && IsOrphan(rows, place)
    ensures OrphansAreAbandoned(newRows, newFiles, abandoned)
  {
  }

  lemma UpdateKeepsIndexes(rows: map<nat, FileRow>, id: nat, row: FileRow)
    requires Indexed(rows) && id in rows && row.path == rows[id].path && row.publicUuid == rows[id].publicUuid
    ensures Indexed(rows[id := row])
    ensures forall path :: Referenced(rows[id := row], path) <==> Referenced(rows, path)
  {
    forall path | Referenced(rows, path)
      ensures Referenced(rows[id := row], path)
    {
      var i :| i in rows && rows[i].path == path;
      assert rows[id := row][i].path == path;
    }
  }

  lemma UpdateKeepsCounts(rows: map<nat, FileRow>, stats: Stats, id: nat, row: FileRow)
    requires CountsAgree(rows, stats) && id in rows && row.downloadCount == rows[id].downloadCount
    ensures CountsAgree(rows[id := row], stats)
  {
  }

  lemma ShiftSettles(env: Env, s: Snapshot, id: nat, row: FileRow, src: Area, dst: Area)
    requires AllSettled(env, s.rows, s.disk) && Indexed(s.rows) && id in s.rows
    requires Locate(s.disk.files, s.rows[id].path) == Some(src) && SameFile(row, s.rows[id])
    requires AreaAllowed(row.status, dst) && Screened(env.fold, row) && Stamped(row)
    requires src != dst ==> CanMove(s.disk, Stored(src, row.path), Stored(dst, row.path))
    ensures AllSettled(env, s.rows[id := row], Shifted(s, id, row, src, dst).disk)
  {
    var d, t := s.disk, Shifted(s, id, row, src, dst).disk;
    assert Settled(env, d, s.rows[id]);
    forall i | i in s.rows && i != id
      ensures Settled(env, t, s.rows[i])
    {
      assert s.rows[i].path != row.path;
      SettledFrame(env, d, t, s.rows[i]);
    }
    assert Locate(t.files, row.path) == Some(dst);
  }

  lemma ShiftKeepsConsistency(env: Env, s: Snapshot, id: nat, row: FileRow, src: Area, dst: Area)
    requires Consistent(env, s) && id in s.rows && Locate(s.disk.files, s.rows[id].path) == Some(src)
    requires SameFile(row, s.rows[id]) && row.downloadCount == s.rows[id].downloadCount
    requires row.releaseId == s.rows[id].releaseId && row.publicUuid == s.rows[id].publicUuid
    requires AreaAllowed(row.status, dst) && Screened(env.fold, row) && Stamped(row)
    requires src != dst ==> CanMove(s.disk, Stored(src, row.path), Stored(dst, row.path))
    ensures Consistent(env, Shifted(s, id, row, src, dst))
  {
    hide Settled, AllSettled, Indexed, CountsAgree, OrphansAreAbandoned, Screened, Locate;
    var t := Shifted(s, id, row, src, dst);
    UpdateKeepsIndexes(s.rows, id, row);
    UpdateKeepsCounts(s.rows, s.stats, id, row);
    ShiftSettles(env, s, id, row, src, dst);
    assert Referenced(s.rows, row.path);
    OrphansFrame(s.rows, s.disk.files, t.rows, t.disk.files, s.abandoned);
    assert AllHaveParents(t.rows, t.releases, t.softwares);
    assert WellFormed(t.disk);
  }

  lemma DropKeepsIndexes(rows: map<nat, FileRow>, id: nat)
    requires Indexed(rows) && id in rows
    ensures Indexed(rows - {id}) && !Referenced(rows - {id}, rows[id].path)
    ensures forall path :: path != rows[id].path ==> (Referenced(rows - {id}, path) <==> Referenced(rows, path))
  {
    forall path | path != rows[id].path && Referenced(rows, path)
      ensures Referenced(rows - {id}, path)
    {
      var i :| i in rows && rows[i].path == path;
      assert i in rows - {id} && (rows - {id})[i].path == path;
    }
  }

  lemma DropKeepsCounts(rows: map<nat, FileRow>, stats: Stats, id: nat)
    requires CountsAgree(rows, stats)
    ensures CountsAgree(rows - {id}, WithoutFile(stats, id))
  {
    forall i | i in rows - {id}
      ensures CountAgrees(rows[i], DaysOf(WithoutFile(stats, id), i))
    {
      assert DaysOf(WithoutFile(stats, id), i) == DaysOf(stats, i);
    }
  }

  lemma DropSettles(env: Env, s: Snapshot, id: nat, t: Disk)
    requires AllSettled(env, s.rows, s.disk) && Indexed(s.rows) && id in s.rows
    requires t.origin == s.disk.origin
    requires forall place: Place :: !(place.Stored? && place.path == s.rows[id].path) ==>
               (place in t.files <==> place in s.disk.files) && (place in t.files ==> t.files[place] == s.disk.files[place])
    ensures AllSettled(env, s.rows - {id}, t)
  {
    forall i | i in s.rows - {id}
      ensures Settled(env, t, s.rows[i])
    {
      assert s.rows[i].path != s.rows[id].path;
      SettledFrame(env, s.disk, t, s.rows[i]);
    }
  }

  lemma DropOrphans(s: Snapshot, id: nat, place: Place, keep: bool)
    requires OrphansAreAbandoned(s.rows, s.disk.files, s.abandoned) && Indexed(s.rows) && id in s.rows
    requires place in s.disk.files && place.Stored? && place.path == s.rows[id].path
    requires forall other: Place :: other in s.disk.files && other.Stored? && other.path == place.path ==> other == place
    ensures OrphansAreAbandoned(s.rows - {id}, if keep then s.disk.files else s.disk.files - {place},
                                if keep then s.abandoned + {place} else s.abandoned)
  {
    DropKeepsIndexes(s.rows, id);
    assert Referenced(s.rows, place.path);
    forall other
      ensures other in s.disk.files && IsOrphan(s.rows - {id}, other)
              <==> (other in s.disk.files && IsOrphan(s.rows, other)) || other == place
    {
    }
  }

  /** Dropping a row and abandoning its file. */
  lemma AbandonKeepsConsistency(env: Env, s: Snapshot, id: nat, area: Area)
    requires Consistent(env, s) && id in s.rows && Locate(s.disk.files, s.rows[id].path) == Some(area)
    ensures Consistent(env, WithoutRow(s, id).(abandoned := s.abandoned + {Stored(area, s.rows[id].path)}))
  {
    hide Settled, AllSettled, Indexed, CountsAgree, OrphansAreAbandoned;
    DropKeepsIndexes(s.rows, id);
    DropKeepsCounts(s.rows, s.stats, id);
    DropSettles(env, s, id, s.disk);
    DropOrphans(s, id, Stored(area, s.rows[id].path), true);
  }

  lemma LocatedAlone(files: Files, path: Path, area: Area)
    requires Locate(files, path) == Some(area)
    ensures forall other: Place :: other in files && other.Stored? && other.path == path ==> other == Stored(area, path)
  {
  }

  /** Dropping a row and removing its file. */
  lemma RemovalKeepsConsistency(env: Env, s: Snapshot, id: nat, area: Area)
    requires Consistent(env, s) && id in s.rows && Locate(s.disk.files, s.rows[id].path) == Some(area)
    ensures Consistent(env, WithoutRow(s, id).(disk := Unlinked(s.disk, Stored(area, s.rows[id].path))))
  {
    hide Settled, AllSettled, Indexed, CountsAgree, OrphansAreAbandoned;
    var place := Stored(area, s.rows[id].path);
    assert place !in s.disk.origin;
    assert s.disk.origin - {place} == s.disk.origin;
    DropKeepsIndexes(s.rows, id);
    DropKeepsCounts(s.rows, s.stats, id);
    LocatedAlone(s.disk.files, place.path, area);
    DropSettles(env, s, id, Unlinked(s.disk, place));
    DropOrphans(s, id, place, false);
  }

  lemma InsertKeepsIndexes(rows: map<nat, FileRow>, id: nat, row: FileRow)
    requires Indexed(rows) && id !in rows && !Referenced(rows, row.path)
    requires forall i :: i in rows ==> rows[i].publicUuid != row.publicUuid
    ensures Indexed(rows[id := row])
    ensures forall path :: Referenced(rows[id := row], path) <==> Referenced(rows, path) || path == row.path
  {
    assert rows[id := row][id] == row;
    forall path | Referenced(rows, path)
      ensures Referenced(rows[id := row], path)
    {
      var i :| i in rows && rows[i].path == path;
      assert rows[id := row][i].path == path;
    }
  }

  lemma InsertSettles(env: Env, rows: map<nat, FileRow>, d: Disk, r: UploadRequest)
    requires AllSettled(env, rows, d) && WellFormed(d) && !Referenced(rows, r.path)
    requires forall place :: !IsCopyOf(d, place, r.path)
    ensures AllSettled(env, rows[r.id := NewRow(env, r)], d.(files := d.files[Stored(Quarantine, r.path) := r.data]))
  {
    var t := d.(files := d.files[Stored(Quarantine, r.path) := r.data]);
    forall i | i in rows
      ensures Settled(env, t, rows[i])
    {
      assert rows[i].path != r.path;
      SettledFrame(env, d, t, rows[i]);
    }
    FreshRowSettles(env, d, r);
  }

  lemma InsertOrphans(s: Snapshot, r: UploadRequest, newRows: map<nat, FileRow>)
    requires OrphansAreAbandoned(s.rows, s.disk.files, s.abandoned)
    requires forall place :: !IsCopyOf(s.disk, place, r.path)
    requires forall path :: Referenced(newRows, path) <==> Referenced(s.rows, path) || path == r.path
    ensures OrphansAreAbandoned(newRows, s.disk.files[Stored(Quarantine, r.path) := r.data], s.abandoned)
  {
    forall place
      ensures place in s.disk.files[Stored(Quarantine, r.path) := r.data] && IsOrphan(newRows, place)
              <==> place in s.disk.files && IsOrphan(s.rows, place)
    {
      assert !IsCopyOf(s.disk, place, r.path);
    }
  }

  function Inserted(env: Env, s: Snapshot, r: UploadRequest): Snapshot {
    s.(rows := s.rows[r.id := NewRow(env, r)],
       disk := s.disk.(files := s.disk.files[Stored(Quarantine, r.path) := r.data]))
  }

  lemma InsertKeepsCounts(env: Env, rows: map<nat, FileRow>, stats: Stats, r: UploadRequest)
    requires CountsAgree(rows, stats) && r.id !in rows
    ensures CountsAgree(rows[r.id := NewRow(env, r)], stats)
  {
    assert DaysOf(stats, r.id) == map[];
    assert CountAgrees(NewRow(env, r), DaysOf(stats, r.id));
  }

  lemma InsertKeepsConsistency(env: Env, s: Snapshot, r: UploadRequest)
    requires Consistent(env, s) && !ViolatesUniqueness(s.rows, r)
    requires forall place :: !IsCopyOf(s.disk, place, r.path)
    requires HasParents(NewRow(env, r), s.releases, s.softwares)
    ensures Consistent(env, Inserted(env, s, r))
  {
    InsertKeepsIndexes(s.rows, r.id, NewRow(env, r));
    InsertSettles(env, s.rows, s.disk, r);
    InsertOrphans(s, r, s.rows[r.id := NewRow(env, r)]);
    InsertKeepsCounts(env, s.rows, s.stats, r);
  }

  lemma UploadKeepsConsistency(env: Env, s: Snapshot, r: UploadRequest, maxSize: nat)
    requires Consistent(env, s) && Fresh(s, Upload(r, maxSize)) && AtomicUpload(env, s, r, maxSize).Success?
    ensures Consistent(env, AtomicUpload(env, s, r, maxSize).value)
  {
    assert forall place :: !IsCopyOf(s.disk, place, r.path);
    InsertKeepsConsistency(env, s, r);
  }

  lemma FreshRowSettles(env: Env, d: Disk, r: UploadRequest)
    requires forall place :: !IsCopyOf(d, place, r.path)
    requires WellFormed(d)
    ensures Settled(env, d.(files := d.files[Stored(Quarantine, r.path) := r.data]), NewRow(env, r))
  {
    var t := d.(files := d.files[Stored(Quarantine, r.path) := r.data]);
    assert !IsCopyOf(d, Stored(SoftwareArea, r.path), r.path);
    forall place | place in t.origin
      ensures t.origin[place] != r.path
    {
      assert !IsCopyOf(d, place, r.path);
    }
    assert Locate(t.files, r.path) == Some(Quarantine);
  }

  lemma RowChangeKeepsConsistency(env: Env, s: Snapshot, id: nat, row: FileRow, target: FileStatus, now: int, area: Area)
    requires Consistent(env, s) && id in s.rows && Locate(s.disk.files, s.rows[id].path) == Some(area)
    requires Transitioned(s.releases, s.softwares, s.rows[id], target, now) == Success(row)
    requires target == Published ==> BarrierFor(env, s.releases, s.softwares, s.rows[id]) == None && area == Quarantine
    ensures SameFile(row, s.rows[id]) && row.downloadCount == s.rows[id].downloadCount
    ensures row.releaseId == s.rows[id].releaseId && row.publicUuid == s.rows[id].publicUuid
    ensures row.status == target && Screened(env.fold, row) && Stamped(row)
  {
    var release := s.releases[s.rows[id].releaseId];
    assert Settled(env, s.disk, s.rows[id]);
    TransitionKeepsScreening(env.fold, s.rows[id], release, s.softwares[release.softwareId], target, now);
    TransitionHistory(s.rows[id], release, s.softwares[release.softwareId], target, now);
  }

  /** Changing columns that neither place the file nor screen it. */
  lemma MinorUpdateKeepsConsistency(env: Env, s: Snapshot, id: nat, row: FileRow, stats: Stats)
    requires Consistent(env, s) && id in s.rows && CountsAgree(s.rows[id := row], stats)
    requires row == s.rows[id].(downloadCount := row.downloadCount, visibility := row.visibility)
    ensures Consistent(env, s.(rows := s.rows[id := row], stats := stats))
  {
    UpdateKeepsIndexes(s.rows, id, row);
    assert Settled(env, s.disk, s.rows[id]);
    assert AllSettled(env, s.rows[id := row], s.disk);
    OrphansFrame(s.rows, s.disk.files, s.rows[id := row], s.disk.files, s.abandoned);
  }

  lemma CountingKeepsCounts(rows: map<nat, FileRow>, stats: Stats, id: nat, row: FileRow, day: int, increment: Daily)
    requires CountsAgree(rows, stats) && id in rows && increment.downloads == increment.successful
    requires row.downloadCount == rows[id].downloadCount + increment.downloads
    ensures CountsAgree(rows[id := row], Upserted(stats, id, day, increment))
  {
    BumpAddsToTotal(DaysOf(stats, id), day, increment);
    assert CountAgrees(rows[id], DaysOf(stats, id));
    forall i | i in rows && i != id
      ensures CountAgrees(rows[i], DaysOf(Upserted(stats, id, day, increment), i))
    {
    }
  }

  lemma OrphanCleanupKeepsConsistency(env: Env, s: Snapshot)
    requires Consistent(env, s)
    ensures Consistent(env, OrphansCleaned(s))
  {
    var t := OrphansCleaned(s);
    forall i | i in t.rows
      ensures Settled(env, t.disk, t.rows[i])
    {
      assert Settled(env, s.disk, s.rows[i]) && Referenced(s.rows, s.rows[i].path);
      SettledFrame(env, s.disk, t.disk, s.rows[i]);
    }
    assert WellFormed(t.disk);
  }

  /** The five status changes, each with the area it starts from and the area it ends in. */
  lemma TransitionKeepsConsistency(env: Env, s: Snapshot, id: nat, target: FileStatus, now: int)
    requires Consistent(env, s) && id in s.rows
    requires Verified(env, s.disk.files, s.rows[id], false).Success?
    requires Transitioned(s.releases, s.softwares, s.rows[id], target, now).Success?
    requires target == Published ==> BarrierFor(env, s.releases, s.softwares, s.rows[id]) == None && Locate(s.disk.files, s.rows[id].path) == Some(Quarantine)
    ensures var row := Transitioned(s.releases, s.softwares, s.rows[id], target, now).value;
            var src := Locate(s.disk.files, s.rows[id].path).value;
            && row.path == s.rows[id].path
            && (AreaAllowed(target, src) ==> Consistent(env, s.(rows := s.rows[id := row])))
            && (target == Published ==> CanMove(s.disk, Stored(src, row.path), Stored(SoftwareArea, row.path))
                                        && Consistent(env, Shifted(s, id, row, Quarantine, SoftwareArea)))
            && (target == Ready ==> (src != Quarantine ==> CanMove(s.disk, Stored(src, row.path), Stored(Quarantine, row.path)))
                                    && Consistent(env, Shifted(s, id, row, src, Quarantine)))
  {
    var row := Transitioned(s.releases, s.softwares, s.rows[id], target, now).value;
    var src := Locate(s.disk.files, s.rows[id].path).value;
    RowChangeKeepsConsistency(env, s, id, row, target, now, src);
    if AreaAllowed(target, src) {
      ShiftKeepsConsistency(env, s, id, row, src, src);
    }
    if target == Published {
      ShiftKeepsConsistency(env, s, id, row, Quarantine, SoftwareArea);
    }
    if target == Ready {
      ShiftKeepsConsistency(env, s, id, row, src, Quarantine);
    }
  }

  lemma TemporaryCleanupKeepsConsistency(env: Env, s: Snapshot, deleted: set<Place>)
    requires Consistent(env, s)
    ensures Consistent(env, s.(disk := TemporaryCleaned(s.disk, deleted)))
  {
    var t := TemporaryCleaned(s.disk, deleted);
    TemporaryCleanupSparesStaged(s.disk, deleted);
    forall id | id in s.rows
      ensures Settled(env, t, s.rows[id])
    {
      SettledFrame(env, s.disk, t, s.rows[id]);
    }
    OrphansFrame(s.rows, s.disk.files, s.rows, t.files, s.abandoned);
  }

  lemma TemporaryCleanupSparesStaged(d: Disk, deleted: set<Place>)
    requires WellFormed(d)
    ensures WellFormed(TemporaryCleaned(d, deleted))
    ensures forall place :: place in d.files && (place.Stored? || place in d.origin) ==>
              place in TemporaryCleaned(d, deleted).files
  {
    forall place | place in d.origin
      ensures !IsTemporaryFilename(place.name)
    {
      StagedDeletionsAreNotTemporaryUploads(place);
    }
  }

  /** Whatever the temporary cleanup deletes, no row loses its bytes. */
  lemma TemporaryCleanupKeepsSurvival(env: Env, rows: map<nat, FileRow>, d: Disk, deleted: set<Place>)
    requires Survives(env, rows, d)
    ensures Survives(env, rows, TemporaryCleaned(d, deleted))
  {
    var t := TemporaryCleaned(d, deleted);
    TemporaryCleanupSparesStaged(d, deleted);
    forall id | id in rows
      ensures Held(env, t, rows[id])
    {
      var kept :| IsOnlyCopy(env, d, rows[id], kept);
      assert IsCopyOf(t, kept, rows[id].path);
      forall other | IsCopyOf(t, other, rows[id].path)
        ensures IsCopyOf(d, other, rows[id].path)
      {
      }
      assert IsOnlyCopy(env, t, rows[id], kept);
    }
  }

  lemma SettledIsLocated(env: Env, s: Snapshot, id: nat) returns (area: Area)
    requires Consistent(env, s) && id in s.rows
    ensures Locate(s.disk.files, s.rows[id].path) == Some(area)
    ensures StoredAreas(s.disk.files, s.rows[id].path) == [area]
  {
    assert Settled(env, s.disk, s.rows[id]);
    area := Locate(s.disk.files, s.rows[id].path).value;
  }

  lemma DeletionKeepsConsistency(env: Env, s: Snapshot, id: nat, staged: Place)
    requires Consistent(env, s)
    ensures AtomicDeleteMetadata(s, id).Success? ==> Consistent(env, AtomicDeleteMetadata(s, id).value)
    ensures AtomicPermanentlyDelete(env, s, id, staged).Success? ==>
              Consistent(env, AtomicPermanentlyDelete(env, s, id, staged).value)
  {
    hide Consistent;
    if id in s.rows {
      var path := s.rows[id].path;
      var area := SettledIsLocated(env, s, id);
      assert (set a | a in StoredAreas(s.disk.files, path) :: Stored(a, path)) == {Stored(area, path)};
      AbandonKeepsConsistency(env, s, id, area);
      RemovalKeepsConsistency(env, s, id, area);
    }
  }

  lemma ParentChangeKeepsConsistency(env: Env, s: Snapshot, releases: map<nat, Release>, softwares: map<nat, Software>)
    requires Consistent(env, s) && AtomicSetParents(s, releases, softwares).Success?
    ensures Consistent(env, AtomicSetParents(s, releases, softwares).value)
  {
  }

  lemma IncrementKeepsConsistency(env: Env, s: Snapshot, id: nat, row: FileRow, day: int, increment: Daily)
    requires Consistent(env, s) && id in s.rows && increment.downloads == increment.successful
    requires row == s.rows[id].(downloadCount := s.rows[id].downloadCount + increment.downloads)
    ensures Consistent(env, s.(rows := s.rows[id := row], stats := Upserted(s.stats, id, day, increment)))
  {
    CountingKeepsCounts(s.rows, s.stats, id, row, day, increment);
    MinorUpdateKeepsConsistency(env, s, id, row, Upserted(s.stats, id, day, increment));
  }

  lemma DownloadKeepsConsistency(env: Env, s: Snapshot, id: nat, day: int)
    requires Consistent(env, s) && id in s.rows
    ensures Consistent(env, AtomicRecordDownload(s, id, day).value)
  {
    hide Consistent;
    IncrementKeepsConsistency(env, s, id, s.rows[id].(downloadCount := s.rows[id].downloadCount + 1), day, AUTHORIZED);
  }

  lemma BlockedKeepsConsistency(env: Env, s: Snapshot, id: nat, day: int)
    requires Consistent(env, s) && id in s.rows
    ensures Consistent(env, AtomicRecordBlocked(s, id, day).value)
  {
    assert s.rows[id := s.rows[id]] == s.rows;
    IncrementKeepsConsistency(env, s, id, s.rows[id], day, BLOCKED);
  }

  lemma VisibilityKeepsConsistency(env: Env, s: Snapshot, id: nat, visibility: Visibility)
    requires Consistent(env, s) && id in s.rows
    ensures Consistent(env, AtomicSetVisibility(s, id, visibility).value)
  {
    UpdateKeepsCounts(s.rows, s.stats, id, s.rows[id].(visibility := visibility));
    MinorUpdateKeepsConsistency(env, s, id, s.rows[id].(visibility := visibility), s.stats);
  }

  lemma StatusChangeKeepsConsistency(env: Env, s: Snapshot, id: nat, target: FileStatus, now: int)
    requires Consistent(env, s)
    ensures AtomicReview(env, s, id, target, now).Success? ==> Consistent(env, AtomicReview(env, s, id, target, now).value)
    ensures AtomicPublish(env, s, id, now).Success? ==> Consistent(env, AtomicPublish(env, s, id, now).value)
    ensures target in {Disabled, Archived} && AtomicTransition(env, s, id, target, now).Success? ==>
              Consistent(env, AtomicTransition(env, s, id, target, now).value)
    ensures AtomicRestoreReady(env, s, id, now).Success? ==> Consistent(env, AtomicRestoreReady(env, s, id, now).value)
  {
    hide Consistent;
    if AtomicReview(env, s, id, target, now).Success? || (target in {Disabled, Archived} && AtomicTransition(env, s, id, target, now).Success?) {
      TransitionKeepsConsistency(env, s, id, target, now);
    }
    if AtomicPublish(env, s, id, now).Success? {
      TransitionKeepsConsistency(env, s, id, Published, now);
    }
    if AtomicRestoreReady(env, s, id, now).Success? {
      TransitionKeepsConsistency(env, s, id, Ready, now);
    }
  }

  /** Every operation that succeeds leads from a consistent state to a consistent state. */
  lemma ApplyKeepsConsistency(env: Env, s: Snapshot, command: Command, now: int)
    requires Consistent(env, s) && Fresh(s, command) && Apply(env, s, command, now).Success?
    ensures Consistent(env, Apply(env, s, command, now).value)
  {
    hide Consistent, AtomicReview, AtomicPublish, AtomicTransition, AtomicRestoreReady, AtomicDeleteMetadata, AtomicPermanentlyDelete, AtomicUpload, AtomicSetParents;
    match command
    case Upload(r, maxSize) => UploadKeepsConsistency(env, s, r, maxSize);
    case Review(id, target) => StatusChangeKeepsConsistency(env, s, id, target, now);
    case Publish(id) => StatusChangeKeepsConsistency(env, s, id, Published, now);
    case Disable(id) => StatusChangeKeepsConsistency(env, s, id, Disabled, now);
    case Archive(id) => StatusChangeKeepsConsistency(env, s, id, Archived, now);
    case RestoreReady(id) => StatusChangeKeepsConsistency(env, s, id, Ready, now);
    case DeleteMetadata(id) => DeletionKeepsConsistency(env, s, id, StagingPlace(""));
    case PermanentlyDelete(id, token) => DeletionKeepsConsistency(env, s, id, StagingPlace(token));
    case SetVisibility(id, visibility) => VisibilityKeepsConsistency(env, s, id, visibility);
    case SetParents(releases, softwares) => ParentChangeKeepsConsistency(env, s, releases, softwares);
    case RecordDownload(id, day) => DownloadKeepsConsistency(env, s, id, day);
    case RecordBlocked(id, day) => BlockedKeepsConsistency(env, s, id, day);
    case CleanOrphans => OrphanCleanupKeepsConsistency(env, s);
    case CleanTemporary(deleted) => TemporaryCleanupKeepsConsistency(env, s, deleted);
  }

  // ---- Runs ----

  datatype Step = Step(command: Command, now: int)

  /** A failed operation leaves the state as it was. */
  function After(env: Env, s: Snapshot, step: Step): Snapshot {
    match Apply(env, s, step.command, step.now)
    case Success(t) => t
    case Failure(_) => s
  }

  function Run(env: Env, s: Snapshot, run: seq<Step>): Snapshot
    decreases run
  {
    if run == [] then s else Run(env, After(env, s, run[0]), run[1..])
  }

  ghost predicate FreshRun(env: Env, s: Snapshot, run: seq<Step>)
    decreases run
  {
    run != [] ==> Fresh(s, run[0].command) && FreshRun(env, After(env, s, run[0]), run[1..])
  }

  /** In every reachable state the database and the storage agree. */
  lemma {:induction false} ConsistencyOverRuns(env: Env, s: Snapshot, run: seq<Step>)
    requires Consistent(env, s) && FreshRun(env, s, run)
    ensures Consistent(env, Run(env, s, run))
    decreases run
  {
    hide Consistent, Apply;
    if run != [] {
      if Apply(env, s, run[0].command, run[0].now).Success? {
        ApplyKeepsConsistency(env, s, run[0].command, run[0].now);
      }
      ConsistencyOverRuns(env, After(env, s, run[0]), run[1..]);
    }
  }

  /** Publishing, disabling and restoring always succeed one after the other, and bring every file
      back to where it was; the row keeps only the date of its first publication. */
  lemma PublicationCanBeUndone(env: Env, s: Snapshot, id: nat, t1: int, t2: int, t3: int)
    requires Consistent(env, s) && AtomicPublish(env, s, id, t1).Success?
    ensures var published := AtomicPublish(env, s, id, t1).value;
            var disabled := AtomicTransition(env, published, id, Disabled, t2);
            && disabled.Success?
            && var restored := AtomicRestoreReady(env, disabled.value, id, t3);
               && restored.Success?
               && restored.value == s.(rows := s.rows[id := s.rows[id].(
                    publishedAt := if s.rows[id].publishedAt.Some? then s.rows[id].publishedAt else Some(t1),
                    disabledAt := None)])
  {
    hide Consistent, WellFormed;
    var row := s.rows[id];
    var src, dst := Stored(Quarantine, row.path), Stored(SoftwareArea, row.path);
    var area := SettledIsLocated(env, s, id);
    var published := AtomicPublish(env, s, id, t1).value;
    assert Locate(published.disk.files, row.path) == Some(SoftwareArea);
    var disabled := AtomicTransition(env, published, id, Disabled, t2).value;
    assert disabled.disk == Moved(s.disk, src, dst);
    ReadyIsNotInfected(env, s, id);
    MoveAndBack(s.disk, src, dst);
  }

  lemma ReadyIsNotInfected(env: Env, s: Snapshot, id: nat)
    requires Consistent(env, s) && id in s.rows && s.rows[id].status in {Ready, Published}
    ensures s.rows[id].scanner != Infected && WellFormed(s.disk)
  {
    assert Settled(env, s.disk, s.rows[id]);
  }
}
