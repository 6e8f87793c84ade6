/** Domain entities and the pure policies over them (`app/models`, `app/services/policies.py`). */
module Policies {
  import opened Prelude
  import opened Signatures

  datatype SoftwareStatus = SoftwareDraft | SoftwarePublished | SoftwareHidden | SoftwareArchived | SoftwareDisabled

  datatype ReleaseStatus = ReleaseDraft | ReleasePublished | ReleaseArchived | ReleaseDisabled

  datatype FileStatus = Quarantined | Ready | Published | Disabled | Archived | Rejected

  datatype Visibility = Public | Unlisted | Private

  datatype ScannerStatus = NotScanned | Clean | Infected | ScanError | Unavailable

  datatype Error = EntityNotFound | InvalidStateTransition | FileValidationError | StorageError
                 | ValidationError | PayloadTooLarge

  /** A path relative to a storage root. */
  type Path = string

  datatype Software = Software(status: SoftwareStatus, visibility: Visibility)

  datatype Release = Release(softwareId: nat, status: ReleaseStatus)

  /** A release_files row. */
  datatype FileRow = FileRow(
    releaseId: nat, publicUuid: string, displayFilename: string, path: Path, extension: string,
    mimeType: string, size: nat, sha256: Digest, status: FileStatus, visibility: Visibility,
    scanner: ScannerStatus, publishedAt: Option<int>, disabledAt: Option<int>, downloadCount: nat)

  /** FILE_TRANSITIONS */
  function FileTransitions(from: FileStatus): set<FileStatus> {
    match from
    case Quarantined => {Ready, Rejected, Disabled}
    case Ready => {Published, Rejected, Disabled, Archived}
    case Published => {Disabled, Archived}
    case Disabled => {Ready, Archived}
    case Archived => {Ready, Disabled}
    case Rejected => {Quarantined}
  }

  predicate ParentsAllowPublication(release: Release, software: Software) {
    release.status == ReleasePublished && software.status in {SoftwarePublished, SoftwareHidden}
  }

  /** apply_file_transition; a transition to the current status changes nothing. */
  function ApplyFileTransition(row: FileRow, release: Release, software: Software, target: FileStatus, now: int)
    : Result<FileRow, Error>
  {
    if target == row.status then Success(row)
    else if target !in FileTransitions(row.status) then Failure(InvalidStateTransition)
    else if target == Ready && row.scanner == Infected then Failure(InvalidStateTransition)
    else if target == Published then
      if !ParentsAllowPublication(release, software) || row.scanner == Infected then
        Failure(InvalidStateTransition)
      else
        var publishedAt := if row.publishedAt.Some? then row.publishedAt else Some(now);
        Success(row.(publishedAt := publishedAt, disabledAt := None, status := target))
    else if target == Disabled then
      Success(row.(disabledAt := Some(now), status := target))
    else
      Success(row.(disabledAt := None, status := target))
  }

  /** _ensure_publish_ready: the error that stops a publication, if any. */
  function PublishBarrier(fold: Fold, row: FileRow, release: Release, software: Software): Option<Error> {
    if row.status != Ready then Some(InvalidStateTransition)
    else if AssessStored(fold, row.extension, row.mimeType) != Match then Some(FileValidationError)
    else if !ParentsAllowPublication(release, software) then Some(InvalidStateTransition)
    else if row.scanner !in {Clean, Unavailable} then Some(InvalidStateTransition)
    else None
  }

  /** _initial_status */
  function InitialStatus(assessment: SignatureAssessment, scanner: ScannerStatus): FileStatus {
    if scanner == Infected then Rejected
    else if assessment != Match then Quarantined
    else if scanner == ScanError then Quarantined
    else Ready
  }

  predicate CanViewSoftware(software: Software, isAdmin: bool) {
    if isAdmin then software.status != SoftwareDisabled
    else software.status in {SoftwarePublished, SoftwareArchived} && software.visibility in {Public, Unlisted}
  }

  predicate CanDownloadFile(row: FileRow, release: Release, software: Software, isAdmin: bool) {
    && row.status == Published
    && release.status in {ReleasePublished, ReleaseArchived}
    && software.status in {SoftwarePublished, SoftwareArchived}
    && (isAdmin || (software.visibility in {Public, Unlisted} && row.visibility in {Public, Unlisted}))
  }

  /** _is_listable_file */
  predicate IsListableFile(row: FileRow, isAdmin: bool) {
    row.status == Published && (isAdmin || row.visibility == Public)
  }

  /** What screening a row has passed: an infected file is never ready or published, and a
      published one has a matching signature and a clean or unavailable scan. */
  predicate Screened(fold: Fold, row: FileRow) {
    && (row.status in {Ready, Published} ==> row.scanner != Infected)
    && (row.status == Published ==>
          AssessStored(fold, row.extension, row.mimeType) == Match && row.scanner in {Clean, Unavailable})
  }

  /** No transition other than a publication that passed its barrier can break the screening. */
  lemma TransitionKeepsScreening(fold: Fold, row: FileRow, release: Release, software: Software, target: FileStatus, now: int)
    requires Screened(fold, row)
    requires target == Published ==> PublishBarrier(fold, row, release, software) == None
    ensures var r := ApplyFileTransition(row, release, software, target, now);
            r.Success? ==> (r.value.status == target && Screened(fold, r.value)
              && r.value == row.(status := target, publishedAt := r.value.publishedAt, disabledAt := r.value.disabledAt))
  {
  }

  /** What the two dates say: a file has a date of disabling exactly while it is disabled, and a
      published file has a date of publication. */
  predicate Stamped(row: FileRow) {
    && (row.disabledAt.Some? <==> row.status == Disabled)
    && (row.status == Published ==> row.publishedAt.Some?)
  }

  /** Every transition keeps that, and the first publication date for good. A file that is not yet
      published becomes so only from ready, with its parents' consent; a rejected file can only be
      quarantined again, and a published one only be taken down. */
  lemma TransitionHistory(row: FileRow, release: Release, software: Software, target: FileStatus, now: int)
    requires Stamped(row) && ApplyFileTransition(row, release, software, target, now).Success?
    ensures var next := ApplyFileTransition(row, release, software, target, now).value;
            && Stamped(next)
            && (row.publishedAt.Some? ==> next.publishedAt == row.publishedAt)
            && (next.publishedAt != row.publishedAt ==> next.status == Published && next.publishedAt == Some(now))
            && (next.status == row.status ==> next == row)
            && (next.status != row.status ==>
                  && (next.status == Published ==> row.status == Ready && ParentsAllowPublication(release, software))
                  && (row.status == Rejected ==> next.status == Quarantined)
                  && (row.status == Published ==> next.status in {Disabled, Archived})
                  && (next.status == Quarantined ==> row.status == Rejected)
                  && (next.status == Rejected ==> row.status in {Quarantined, Ready})
                  && (next.status == Ready ==> row.status in {Quarantined, Disabled, Archived}))
  {
  }

  /** What the barrier lets through before any byte is moved, the transition does not refuse after. */
  lemma BarrierAnticipatesTransition(fold: Fold, row: FileRow, release: Release, software: Software, now: int)
    requires PublishBarrier(fold, row, release, software) == None
    ensures ApplyFileTransition(row, release, software, Published, now).Success?
  {
  }

  /** Whatever the row says of its past: an infected file is not approved or published, and a file that
      leaves or enters another status than disabled has no date of disabling; disabling dates it. */
  lemma InAnyRow(row: FileRow, release: Release, software: Software, target: FileStatus, now: int)
    requires target != row.status
    ensures row.scanner == Infected && target in {Ready, Published} ==>
              ApplyFileTransition(row, release, software, target, now) == Failure(InvalidStateTransition)
    ensures var result := ApplyFileTransition(row, release, software, target, now);
            result.Success? ==> result.value.disabledAt == if target == Disabled then Some(now) else None
  {
  }
}
