/** Laws of the lifecycle commands that do not depend on how each is carried out: when a command
    succeeds, what it may change, and what no command may do. */
module CommandLaws {
  import opened Prelude
  import opened Signatures
  import opened Policies
  import opened DownloadStats
  import opened StorageState
  import opened Lifecycle

  // ---- When a command succeeds, in a consistent state ----

  function BytesOf(s: Snapshot, id: nat): Option<Bytes> {
    if id !in s.rows then None
    else
      match Locate(s.disk.files, s.rows[id].path)
      case None => None
      case Some(area) => Some(s.disk.files[Stored(area, s.rows[id].path)])
  }

  /** A consistent row has its one file, which verifies. */
  lemma ConsistentRowVerifies(env: Env, s: Snapshot, id: nat, verifyHash: bool)
    requires Consistent(env, s) && id in s.rows
    ensures Verified(env, s.disk.files, s.rows[id], verifyHash).Success?
    ensures StoredAreas(s.disk.files, s.rows[id].path) == [Verified(env, s.disk.files, s.rows[id], verifyHash).value]
    ensures HasParents(s.rows[id], s.releases, s.softwares)
    ensures Screened(env.fold, s.rows[id])
    ensures BytesOf(s, id).Some?
    ensures s.rows[id].mimeType == StoredMimeType(Sample(env, BytesOf(s, id).value))
  {
    assert Settled(env, s.disk, s.rows[id]);
  }

  /** Where the files of a consistent state lie: published ones in the software area, and those not
      yet approved for publication in quarantine. */
  lemma AreasOfConsistentRows(env: Env, s: Snapshot, id: nat)
    requires Consistent(env, s) && id in s.rows
    ensures s.rows[id].status == Published ==> StoredAreas(s.disk.files, s.rows[id].path) == [SoftwareArea]
    ensures s.rows[id].status in {Quarantined, Ready, Rejected} ==> StoredAreas(s.disk.files, s.rows[id].path) == [Quarantine]
  {
    assert Settled(env, s.disk, s.rows[id]);
  }

  /** A file can be published exactly when it is ready, its release is published, its software is
      published or hidden, it was scanned clean or could not be scanned, and its bytes carry the
      signature of its extension. */
  lemma PublishSucceedsExactlyWhen(env: Env, s: Snapshot, id: nat, now: int)
    requires Consistent(env, s) && FixesMimeTypes(env.fold)
    ensures Apply(env, s, Publish(id), now).Success?
            <==> && id in s.rows
                 && s.rows[id].status == Ready
                 && s.releases[s.rows[id].releaseId].status == ReleasePublished
                 && s.softwares[s.releases[s.rows[id].releaseId].softwareId].status in {SoftwarePublished, SoftwareHidden}
                 && s.rows[id].scanner in {Clean, Unavailable}
                 && AssessSample(env.fold, s.rows[id].extension, Sample(env, BytesOf(s, id).value)) == Match
  {
    hide Consistent, AssessSample, AssessStored, StoredMimeType, FixesMimeTypes, Screened;
    if id in s.rows {
      ConsistentRowVerifies(env, s, id, true);
      if s.rows[id].status == Ready {
        AreasOfConsistentRows(env, s, id);
      }
      StoredAssessmentAgrees(env.fold, s.rows[id].extension, Sample(env, BytesOf(s, id).value));
    }
  }

  lemma DisableSucceedsExactlyWhen(env: Env, s: Snapshot, id: nat, now: int)
    requires Consistent(env, s)
    ensures Apply(env, s, Disable(id), now).Success? <==> id in s.rows && s.rows[id].status != Rejected
    ensures Apply(env, s, Archive(id), now).Success? <==> id in s.rows && s.rows[id].status in {Ready, Published, Disabled, Archived}
  {
    hide Consistent;
    if id in s.rows {
      ConsistentRowVerifies(env, s, id, false);
    }
  }

  lemma RestoreReadySucceedsExactlyWhen(env: Env, s: Snapshot, id: nat, now: int)
    requires Consistent(env, s)
    ensures Apply(env, s, RestoreReady(id), now).Success?
            <==> id in s.rows && s.rows[id].status in {Quarantined, Ready, Disabled, Archived} && s.rows[id].scanner != Infected
  {
    hide Consistent;
    if id in s.rows {
      ConsistentRowVerifies(env, s, id, false);
    }
  }

  /** A review decides about files in quarantine only: it approves what is not infected, rejects what
      is still under review, and puts a rejected file back under review. */
  lemma ReviewSucceedsExactlyWhen(env: Env, s: Snapshot, id: nat, target: FileStatus, now: int)
    requires Consistent(env, s)
    ensures Apply(env, s, Review(id, target), now).Success?
            <==> && id in s.rows && StoredAreas(s.disk.files, s.rows[id].path) == [Quarantine]
                 && (|| (target == Ready && s.rows[id].status in {Quarantined, Ready, Disabled, Archived} && s.rows[id].scanner != Infected)
                     || (target == Rejected && s.rows[id].status in {Quarantined, Ready, Rejected})
                     || (target == Quarantined && s.rows[id].status in {Quarantined, Rejected}))
  {
    hide Consistent;
    if id in s.rows {
      ConsistentRowVerifies(env, s, id, false);
      AreasOfConsistentRows(env, s, id);
    }
  }

  /** Whatever is not published can be deleted, with its file if the staging name is free. */
  lemma DeletionSucceedsExactlyWhen(env: Env, s: Snapshot, id: nat, token: string, now: int)
    requires Consistent(env, s)
    ensures Apply(env, s, DeleteMetadata(id), now).Success? <==> id in s.rows && s.rows[id].status != Published
    ensures Apply(env, s, PermanentlyDelete(id, token), now).Success?
            <==> id in s.rows && s.rows[id].status != Published && Temporary("deletions", token + ".delete") !in s.disk.files
  {
    hide Consistent;
    if id in s.rows {
      ConsistentRowVerifies(env, s, id, false);
    }
  }

  /** In any state the metadata of a file that is not published can be deleted, with its file missing
      or in one area, but not while it lies in both; visibility and counters change for every row
      there is; and releases and software change in any way that leaves every row its parents. */
  lemma OthersSucceedExactlyWhen(env: Env, s: Snapshot, id: nat, visibility: Visibility, day: int,
                                 releases: map<nat, Release>, softwares: map<nat, Software>, now: int)
    ensures Apply(env, s, DeleteMetadata(id), now).Success?
            <==> && id in s.rows && s.rows[id].status != Published
                 && !(Stored(Quarantine, s.rows[id].path) in s.disk.files && Stored(SoftwareArea, s.rows[id].path) in s.disk.files)
    ensures Apply(env, s, SetVisibility(id, visibility), now).Success? <==> id in s.rows
    ensures Apply(env, s, RecordDownload(id, day), now).Success? <==> id in s.rows
    ensures Apply(env, s, RecordBlocked(id, day), now).Success? <==> id in s.rows
    ensures Apply(env, s, SetParents(releases, softwares), now).Success?
            <==> forall i :: i in s.rows ==> HasParents(s.rows[i], releases, softwares)
  {
  }

  /** An upload succeeds, in any state, exactly when its release is there, its checks pass, it has
      between one byte and the limit, and nothing has its names. */
  lemma UploadSucceedsExactlyWhen(env: Env, s: Snapshot, r: UploadRequest, maxSize: nat, now: int)
    ensures Apply(env, s, Upload(r, maxSize), now).Success?
            <==> && r.releaseId in s.releases && s.releases[r.releaseId].softwareId in s.softwares
                 && r.filenameValid && r.metadataValid
                 && 0 < |r.data| <= maxSize
                 && Temporary("", r.token + ".upload") !in s.disk.files && Stored(Quarantine, r.path) !in s.disk.files
                 && r.id !in s.rows
                 && forall id :: id in s.rows ==> s.rows[id].path != r.path && s.rows[id].publicUuid != r.publicUuid
  {
  }

  /** The row of a new upload, in any state. Infected files start rejected; files whose bytes do not
      carry the signature of their extension, or whose scan failed, start in quarantine; only the
      others start ready. The file lies in quarantine. */
  lemma NewRowIsJudgedByItsBytes(env: Env, s: Snapshot, r: UploadRequest, maxSize: nat, now: int)
    requires Apply(env, s, Upload(r, maxSize), now).Success?
    ensures var t := Apply(env, s, Upload(r, maxSize), now).value;
            var row := t.rows[r.id];
            var assessment := AssessSample(env.fold, r.extension, Sample(env, r.data));
            && r.id in t.rows
            && (row.status == Rejected <==> r.scanner == Infected)
            && (row.status == Ready <==> assessment == Match && r.scanner !in {Infected, ScanError})
            && (row.status == Quarantined <==> r.scanner != Infected && (assessment != Match || r.scanner == ScanError))
            && row.size == |r.data| && row.sha256 == env.hash(r.data) && row.path == r.path && row.extension == r.extension
            && row.releaseId == r.releaseId && row.publicUuid == r.publicUuid && row.displayFilename == r.displayFilename
            && row.visibility == r.visibility && row.scanner == r.scanner
            && row.publishedAt == None && row.disabledAt == None && row.downloadCount == 0
            && t.disk.files == s.disk.files[Stored(Quarantine, r.path) := r.data]
            && t.rows == s.rows[r.id := row] && t.stats == s.stats && t.releases == s.releases && t.softwares == s.softwares
  {
  }

  /** Why a command on a file of a consistent state is refused: there is no row; the bytes of a file to
      be published do not carry the signature of its extension; a file to be reviewed lies in the
      software area, or the staging name of one to be deleted is taken; and in all other cases its
      status, its scan or its parents do not allow it. */
  lemma WhyCommandsAreRefused(env: Env, s: Snapshot, command: Command, now: int)
    requires Consistent(env, s) && FixesMimeTypes(env.fold) && Apply(env, s, command, now).Failure?
    requires ChangesStatus(command) || command.DeleteMetadata? || command.PermanentlyDelete? || command.SetVisibility?
    ensures var error := Apply(env, s, command, now).error;
            var asked := command.Review? ==> command.target in {Ready, Rejected, Quarantined};
            && error in {EntityNotFound, FileValidationError, StorageError, InvalidStateTransition}
            && (error == EntityNotFound <==> asked && command.id !in s.rows)
            && (error == FileValidationError
                <==> && command.Publish? && command.id in s.rows && s.rows[command.id].status == Ready
                     && AssessSample(env.fold, s.rows[command.id].extension, Sample(env, BytesOf(s, command.id).value)) != Match)
            && (error == StorageError
                <==> || (command.Review? && asked && command.id in s.rows
                         && StoredAreas(s.disk.files, s.rows[command.id].path) == [SoftwareArea])
                     || (command.PermanentlyDelete? && command.id in s.rows && s.rows[command.id].status != Published
                         && Temporary("deletions", command.token + ".delete") in s.disk.files))
  {
    hide Consistent, AssessSample, AssessStored, StoredMimeType, FixesMimeTypes, Screened;
    if command.id in s.rows {
      ConsistentRowVerifies(env, s, command.id, command.Publish?);
      AreasOfConsistentRows(env, s, command.id);
      StoredAssessmentAgrees(env.fold, s.rows[command.id].extension, Sample(env, BytesOf(s, command.id).value));
    }
  }

  // ---- What a command may change ----

  predicate IsAbout(command: Command, id: nat) {
    match command
    case Upload(r, _) => r.id == id
    case Review(i, _) => i == id
    case Publish(i) => i == id
    case Disable(i) => i == id
    case Archive(i) => i == id
    case RestoreReady(i) => i == id
    case DeleteMetadata(i) => i == id
    case PermanentlyDelete(i, _) => i == id
    case SetVisibility(i, _) => i == id
    case RecordDownload(i, _) => i == id
    case _ => false
  }

  /** No command touches the row of another file. */
  lemma OtherRowsStay(env: Env, s: Snapshot, command: Command, now: int, id: nat)
    requires Apply(env, s, command, now).Success? && !IsAbout(command, id)
    ensures var t := Apply(env, s, command, now).value;
            (id in t.rows <==> id in s.rows) && (id in s.rows ==> t.rows[id] == s.rows[id])
  {
    hide Transitioned, BarrierFor, Verified, StoredMimeType, AssessSample;
  }

  predicate SameUpload(row: FileRow, other: FileRow) {
    && row.releaseId == other.releaseId && row.publicUuid == other.publicUuid && row.displayFilename == other.displayFilename
    && row.path == other.path && row.extension == other.extension && row.mimeType == other.mimeType
    && row.size == other.size && row.sha256 == other.sha256 && row.scanner == other.scanner
  }

  /** A transition changes the status and the two dates, and nothing else. */
  lemma TransitionsChangeStatusOnly(releases: map<nat, Release>, softwares: map<nat, Software>, row: FileRow, target: FileStatus, now: int)
    requires Transitioned(releases, softwares, row, target, now).Success?
    ensures var next := Transitioned(releases, softwares, row, target, now).value;
            SameUpload(next, row) && next.visibility == row.visibility && next.downloadCount == row.downloadCount && next.status == target
  {
  }

  predicate ChangesStatus(command: Command) {
    command.Review? || command.Publish? || command.Disable? || command.Archive? || command.RestoreReady?
  }

  lemma StatusCommandsChangeOneRow(env: Env, s: Snapshot, command: Command, now: int)
    requires ChangesStatus(command) && Apply(env, s, command, now).Success?
    ensures var t := Apply(env, s, command, now).value;
            && command.id in s.rows && command.id in t.rows && t.rows == s.rows[command.id := t.rows[command.id]]
            && t.rows[command.id].status == StatusAsked(command)
            && SameUpload(t.rows[command.id], s.rows[command.id])
            && t.rows[command.id].visibility == s.rows[command.id].visibility
            && t.rows[command.id].downloadCount == s.rows[command.id].downloadCount
            && t.stats == s.stats && t.releases == s.releases && t.softwares == s.softwares
  {
    hide Transitioned, BarrierFor, Verified, SameUpload;
    TransitionsChangeStatusOnly(s.releases, s.softwares, s.rows[command.id], StatusAsked(command), now);
  }

  function StatusAsked(command: Command): FileStatus
    requires ChangesStatus(command)
  {
    match command
    case Review(_, target) => target
    case Publish(_) => Published
    case Disable(_) => Disabled
    case Archive(_) => Archived
    case RestoreReady(_) => Ready
  }

  /** What an upload said about its file stays as it was while the row exists; visibility changes
      only by the command for it, and the count only by downloads. */
  lemma UploadedColumnsStay(env: Env, s: Snapshot, command: Command, now: int, id: nat)
    requires Apply(env, s, command, now).Success? && id in s.rows && id in Apply(env, s, command, now).value.rows
    ensures var row := Apply(env, s, command, now).value.rows[id];
            && SameUpload(row, s.rows[id])
            && row.visibility == (if command.SetVisibility? && command.id == id then command.visibility else s.rows[id].visibility)
            && row.downloadCount == s.rows[id].downloadCount + if command.RecordDownload? && command.id == id then 1 else 0
  {
    hide Verified, StoredMimeType, AssessSample, AtomicReview, AtomicPublish, AtomicTransition, AtomicRestoreReady;
    if ChangesStatus(command) {
      StatusCommandsChangeOneRow(env, s, command, now);
    }
  }

  /** The status a command asks for is the status the row gets; every other command leaves it. */
  lemma StatusAfter(env: Env, s: Snapshot, command: Command, now: int, id: nat)
    requires Apply(env, s, command, now).Success? && id in s.rows && id in Apply(env, s, command, now).value.rows
    ensures var row := Apply(env, s, command, now).value.rows[id];
            row.status == match command
                          case Review(i, target) => if i == id then target else s.rows[id].status
                          case Publish(i) => if i == id then Published else s.rows[id].status
                          case Disable(i) => if i == id then Disabled else s.rows[id].status
                          case Archive(i) => if i == id then Archived else s.rows[id].status
                          case RestoreReady(i) => if i == id then Ready else s.rows[id].status
                          case _ => s.rows[id].status
  {
    hide Verified, StoredMimeType, AssessSample, AtomicReview, AtomicPublish, AtomicTransition, AtomicRestoreReady;
    if ChangesStatus(command) {
      StatusCommandsChangeOneRow(env, s, command, now);
    }
  }

  function DayOf(stats: Stats, file: nat, day: int): Daily {
    if day in DaysOf(stats, file) then DaysOf(stats, file)[day] else ZERO
  }

  lemma OneDayIsBumped(stats: Stats, id: nat, at: int, increment: Daily, file: nat, day: int)
    ensures DayOf(Upserted(stats, id, at, increment), file, day)
            == if file == id && day == at then DayOf(stats, file, day).Plus(increment) else DayOf(stats, file, day)
  {
  }

  lemma OtherFilesKeepTheirDays(stats: Stats, id: nat, file: nat, day: int)
    requires file != id
    ensures DayOf(WithoutFile(stats, id), file, day) == DayOf(stats, file, day)
  {
  }

  /** Downloads and blocked attempts are counted on their day, once, and nowhere else. */
  lemma CountedOnce(env: Env, s: Snapshot, command: Command, now: int, file: nat, day: int)
    requires Apply(env, s, command, now).Success? && file in Apply(env, s, command, now).value.rows && file in s.rows
    ensures var before, after := DayOf(s.stats, file, day), DayOf(Apply(env, s, command, now).value.stats, file, day);
            && after.downloads == before.downloads + (if command == RecordDownload(file, day) then 1 else 0)
            && after.successful == before.successful + (if command == RecordDownload(file, day) then 1 else 0)
            && after.blocked == before.blocked + (if command == RecordBlocked(file, day) then 1 else 0)
  {
    hide Verified, StoredMimeType, AssessSample, AtomicReview, AtomicPublish, AtomicTransition, AtomicRestoreReady, DayOf, Upserted,
      WithoutFile;
    if ChangesStatus(command) {
      StatusCommandsChangeOneRow(env, s, command, now);
    } else {
      match command
      case RecordDownload(id, at) => OneDayIsBumped(s.stats, id, at, Daily(1, 1, 0), file, day);
      case RecordBlocked(id, at) => OneDayIsBumped(s.stats, id, at, Daily(0, 0, 1), file, day);
      case DeleteMetadata(id) => OtherFilesKeepTheirDays(s.stats, id, file, day);
      case PermanentlyDelete(id, _) => OtherFilesKeepTheirDays(s.stats, id, file, day);
      case _ =>
    }
  }

  /** The parents of files change only by the command for it. */
  lemma ParentsChangeByTheirCommand(env: Env, s: Snapshot, command: Command, now: int)
    requires Apply(env, s, command, now).Success?
    ensures var t := Apply(env, s, command, now).value;
            && t.releases == (if command.SetParents? then command.releases else s.releases)
            && t.softwares == (if command.SetParents? then command.softwares else s.softwares)
  {
    hide Verified, StoredMimeType, AssessSample, AtomicReview, AtomicPublish, AtomicTransition, AtomicRestoreReady, Upserted;
    if ChangesStatus(command) {
      StatusCommandsChangeOneRow(env, s, command, now);
    }
  }

  /** No command writes over stored bytes or makes any up: what lies in a storage area afterwards lay
      there, or in the other area at the same path, or is what was uploaded. */
  lemma BytesAreNeverChanged(env: Env, s: Snapshot, command: Command, now: int, area: Area, path: Path)
    requires Apply(env, s, command, now).Success? && Stored(area, path) in Apply(env, s, command, now).value.disk.files
    ensures var data := Apply(env, s, command, now).value.disk.files[Stored(area, path)];
            || (exists a :: Stored(a, path) in s.disk.files && s.disk.files[Stored(a, path)] == data)
            || (command.Upload? && command.request.path == path && command.request.data == data && area == Quarantine)
  {
    hide BarrierFor, StoredMimeType, AssessSample, AtomicPublish, AtomicRestoreReady;
    match command
    case Publish(id) => MovedBytes(env, s, id, now, area, path);
    case RestoreReady(id) => MovedBytes(env, s, id, now, area, path);
    case _ => assert Stored(area, path) in s.disk.files || command.Upload?;
  }

  lemma MovedBytes(env: Env, s: Snapshot, id: nat, now: int, area: Area, path: Path)
    ensures AtomicPublish(env, s, id, now).Success? && Stored(area, path) in AtomicPublish(env, s, id, now).value.disk.files ==>
              exists a :: Stored(a, path) in s.disk.files
                          && s.disk.files[Stored(a, path)] == AtomicPublish(env, s, id, now).value.disk.files[Stored(area, path)]
    ensures AtomicRestoreReady(env, s, id, now).Success? && Stored(area, path) in AtomicRestoreReady(env, s, id, now).value.disk.files ==>
              exists a :: Stored(a, path) in s.disk.files
                          && s.disk.files[Stored(a, path)] == AtomicRestoreReady(env, s, id, now).value.disk.files[Stored(area, path)]
  {
    hide BarrierFor;
  }

  /** Publishing verifies the bytes themselves, in any state, and moves them; every other status
      change finds the one file of the right size. */
  lemma StatusChangesVerifyTheFile(env: Env, s: Snapshot, command: Command, now: int)
    requires Apply(env, s, command, now).Success?
    requires command.Publish? || command.Disable? || command.Archive? || command.RestoreReady? || command.Review? || command.PermanentlyDelete?
    ensures var row := s.rows[command.id];
            && command.id in s.rows
            && |StoredAreas(s.disk.files, row.path)| == 1
            && BytesOf(s, command.id).Some? && |BytesOf(s, command.id).value| == row.size
            && (command.Publish? ==>
                  && env.hash(BytesOf(s, command.id).value) == row.sha256
                  && StoredAreas(s.disk.files, row.path) == [Quarantine]
                  && StoredAreas(Apply(env, s, command, now).value.disk.files, row.path) == [SoftwareArea])
            && (command.RestoreReady? ==> StoredAreas(Apply(env, s, command, now).value.disk.files, row.path) == [Quarantine])
            && (command.Review? ==> StoredAreas(s.disk.files, row.path) == [Quarantine])
            && (command.PermanentlyDelete? ==> StoredAreas(Apply(env, s, command, now).value.disk.files, row.path) == [])
  {
    hide BarrierFor, StoredMimeType, AssessSample;
  }

  /** In any state a file verifies exactly when it lies in one area and has the size of its row, and,
      where the bytes are read, their digest. */
  lemma VerifiedExactlyWhen(env: Env, files: Files, row: FileRow, verifyHash: bool, area: Area)
    ensures Verified(env, files, row, verifyHash) == Success(area)
            <==> && StoredAreas(files, row.path) == [area] && Stored(area, row.path) in files
                 && |files[Stored(area, row.path)]| == row.size
                 && (verifyHash ==> env.hash(files[Stored(area, row.path)]) == row.sha256)
  {
  }

  // ---- Published files ----

  /** In any state, no command removes a published row. */
  lemma PublishedRowsStay(env: Env, s: Snapshot, command: Command, now: int, id: nat)
    requires id in s.rows && s.rows[id].status == Published && Apply(env, s, command, now).Success?
    ensures id in Apply(env, s, command, now).value.rows
  {
    hide Transitioned, BarrierFor, Verified, StoredMimeType, AssessSample;
  }

  /** Only disabling or archiving takes a publication back. */
  lemma PublicationStays(env: Env, s: Snapshot, command: Command, now: int, id: nat)
    requires id in s.rows && s.rows[id].status == Published && Apply(env, s, command, now).Success?
    requires command !in {Disable(id), Archive(id)}
    ensures id in Apply(env, s, command, now).value.rows && Apply(env, s, command, now).value.rows[id].status == Published
  {
    hide Verified, StoredMimeType, AssessSample, AtomicReview, AtomicPublish, AtomicTransition, AtomicRestoreReady;
    if ChangesStatus(command) {
      StatusCommandsChangeOneRow(env, s, command, now);
      if command.id == id {
        PublishedIsOnlyTakenDown(env, s, command, now, id);
      }
    }
  }

  lemma PublishedIsOnlyTakenDown(env: Env, s: Snapshot, command: Command, now: int, id: nat)
    requires id in s.rows && s.rows[id].status == Published && ChangesStatus(command) && command.id == id
    requires Apply(env, s, command, now).Success?
    ensures StatusAsked(command) in {Published, Disabled, Archived} && !command.Review?
  {
    hide BarrierFor, Verified;
  }

  /** Over every run: a published row is there, and published, until it is disabled or archived. */
  lemma {:induction false} PublishedUntilTakenDown(env: Env, s: Snapshot, run: seq<Step>, id: nat)
    requires id in s.rows && s.rows[id].status == Published
    requires forall step :: step in run ==> step.command !in {Disable(id), Archive(id)}
    ensures id in Run(env, s, run).rows && Run(env, s, run).rows[id].status == Published
    decreases run
  {
    hide Apply;
    if run != [] {
      assert run[0] in run;
      if Apply(env, s, run[0].command, run[0].now).Success? {
        PublicationStays(env, s, run[0].command, run[0].now, id);
      }
      PublishedUntilTakenDown(env, After(env, s, run[0]), run[1..], id);
    }
  }

  // ---- Clean-ups ----

  /** Cleaning orphans removes every stored file without a row and nothing else; cleaning temporary
      files removes the uploads it is told to and nothing else. Both always succeed. */
  lemma CleanupsRemoveExactly(env: Env, s: Snapshot, deleted: set<Place>, place: Place, now: int)
    ensures Apply(env, s, CleanOrphans, now).Success? && Apply(env, s, CleanTemporary(deleted), now).Success?
    ensures var files := Apply(env, s, CleanOrphans, now).value.disk.files;
            && (place in files <==>
                  place in s.disk.files && (place.Temporary? || exists id :: id in s.rows && s.rows[id].path == place.path))
            && (place in files ==> files[place] == s.disk.files[place])
    ensures var files := Apply(env, s, CleanTemporary(deleted), now).value.disk.files;
            && (place in files <==> place in s.disk.files && !(place in deleted && place.Temporary? && IsTemporaryFilename(place.name)))
            && (place in files ==> files[place] == s.disk.files[place])
  {
  }

  /** The names temporary cleanup may delete are those that uploads get, and no others. */
  lemma TemporaryNamesExactly(name: string)
    ensures IsTemporaryFilename(name) <==> exists token :: IsUploadName(name, token)
  {
    if IsTemporaryFilename(name) {
      HexTexts(name[..32]);
      assert name == name[..32] + ".upload";
      assert IsUploadName(name, name[..32]);
    }
    forall token | IsUploadName(name, token)
      ensures IsTemporaryFilename(name)
    {
      HexTexts(token);
      assert name == token + ".upload" && name[..32] == token && name[32..] == ".upload";
    }
  }

  ghost predicate IsUploadName(name: string, token: string) {
    |token| == 32 && IsHexText(token) && UploadPlace(token) == Temporary("", name)
  }

  lemma HexTexts(s: string)
    ensures IsHex(s) <==> IsHexText(s)
  {
    HexCharacters();
    forall i | 0 <= i < |s|
      ensures s[i] in s
    {
    }
  }

  lemma HexCharacters()
    ensures forall c :: c in "0123456789abcdef" <==> '0' <= c <= '9' || 'a' <= c <= 'f'
  {
    var h := "0123456789abcdef";
    assert |h| == 16 && h[0] == '0' && h[1] == '1' && h[2] == '2' && h[3] == '3' && h[4] == '4' && h[5] == '5' && h[6] == '6'
        && h[7] == '7' && h[8] == '8' && h[9] == '9' && h[10] == 'a' && h[11] == 'b' && h[12] == 'c' && h[13] == 'd'
        && h[14] == 'e' && h[15] == 'f';
    forall c | '0' <= c <= '9' || 'a' <= c <= 'f'
      ensures c in h
    {
      assert h[if c <= '9' then c as int - '0' as int else 10 + (c as int - 'a' as int)] == c;
    }
  }

  predicate IsHexText(s: string) {
    forall i :: 0 <= i < |s| ==> '0' <= s[i] <= '9' || 'a' <= s[i] <= 'f'
  }
}
