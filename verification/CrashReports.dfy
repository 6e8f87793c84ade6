/** What reconciliation reports after an operation stopped on the way, or after a file was altered, lost
    or duplicated: exactly the traces of that, beside the orphans there were
    (`app/services/reconciliation_service.py`). */
module CrashReports {
  import opened Prelude
  import opened Policies
  import opened StorageState
  import opened Lifecycle
  import opened Interruptions
  import opened Reconciliation

  ghost predicate SameStored(a: Files, b: Files, place: Place) {
    (place in a <==> place in b) && (place in a ==> a[place] == b[place])
  }

  lemma UndisturbedRow(env: Env, s: Snapshot, files: Files, id: nat, checksums: bool, issue: Issue)
    requires Consistent(env, s) && id in s.rows
    requires forall area :: SameStored(files, s.disk.files, Stored(area, s.rows[id].path))
    ensures !IsRowIssue(env, files, id, s.rows[id], checksums, issue)
  {
    assert Settled(env, s.disk, s.rows[id]);
    assert forall area :: Stored(area, s.rows[id].path) in files <==> Stored(area, s.rows[id].path) in s.disk.files;
  }

  lemma SameOrphans(env: Env, s: Snapshot, t: Snapshot, issue: Issue)
    requires Consistent(env, s)
    requires forall path :: Referenced(t.rows, path) <==> Referenced(s.rows, path)
    requires forall area, path :: !Referenced(s.rows, path) ==> SameStored(t.disk.files, s.disk.files, Stored(area, path))
    ensures IsOrphanIssue(t.rows, t.disk.files, issue) <==> IsAbandonedFile(s, issue)
  {
    if issue.OrphanFile? && issue.place.Stored? && !Referenced(s.rows, issue.place.path) {
      assert SameStored(t.disk.files, s.disk.files, Stored(issue.place.area, issue.place.path));
    }
  }

  /** If only the files at the path of one row were disturbed, only issues of that row are added. */
  lemma OneRowDisturbed(env: Env, s: Snapshot, t: Snapshot, id: nat, checksums: bool, issue: Issue)
    requires Consistent(env, s) && id in s.rows && t.rows == s.rows
    requires forall area, path :: path != s.rows[id].path ==> SameStored(t.disk.files, s.disk.files, Stored(area, path))
    ensures IsIssue(env, t, checksums, issue)
            <==> IsRowIssue(env, t.disk.files, id, s.rows[id], checksums, issue) || IsAbandonedFile(s, issue)
  {
    hide IsRowIssue, IsOrphanIssue, IsAbandonedFile, SameStored;
    assert Referenced(s.rows, s.rows[id].path);
    SameOrphans(env, s, t, issue);
    forall i | i in s.rows && i != id
      ensures !IsRowIssue(env, t.disk.files, i, s.rows[i], checksums, issue)
    {
      assert s.rows[i].path != s.rows[id].path;
      UndisturbedRow(env, s, t.disk.files, i, checksums, issue);
    }
  }

  lemma MoveDisturbsOnePath(d: Disk, src: Place, dst: Place, area: Area, path: Path)
    requires CanMove(d, src, dst) && src.Stored? && path != src.path && (dst.Temporary? || dst.path == src.path)
    ensures SameStored(Moved(d, src, dst).files, d.files, Stored(area, path))
  {
  }

  /** A publication that stopped after its move: the ready file in the software area is reported. */
  lemma InterruptedPublication(env: Env, s: Snapshot, id: nat, t: Snapshot, checksums: bool, issue: Issue)
    requires Consistent(env, s) && Partway(s, Publish(id), t)
    ensures IsIssue(env, t, checksums, issue) <==> issue == UnexpectedStorageArea(id, SoftwareArea) || IsAbandonedFile(s, issue)
  {
    hide IsAbandonedFile, Consistent, IsIssue;
    var path := s.rows[id].path;
    forall area, p | p != path
      ensures SameStored(t.disk.files, s.disk.files, Stored(area, p))
    {
      MoveDisturbsOnePath(s.disk, Stored(Quarantine, path), Stored(SoftwareArea, path), area, p);
    }
    OneRowDisturbed(env, s, t, id, checksums, issue);
    ConsistentBytes(env, s, id, Quarantine);
    assert Locate(t.disk.files, path) == Some(SoftwareArea);
  }

  lemma ConsistentBytes(env: Env, s: Snapshot, id: nat, area: Area)
    requires Consistent(env, s) && id in s.rows && Stored(area, s.rows[id].path) in s.disk.files
    ensures Locate(s.disk.files, s.rows[id].path) == Some(area)
    ensures Faithful(env, s.rows[id], s.disk.files[Stored(area, s.rows[id].path)])
  {
    assert Settled(env, s.disk, s.rows[id]);
  }

  /** A restore_ready that stopped after its move: nothing is wrong with a disabled or archived file in
      quarantine, but a published one, which the transaction would have refused, is reported. */
  lemma InterruptedRestoreReady(env: Env, s: Snapshot, id: nat, t: Snapshot, checksums: bool, issue: Issue)
    requires Consistent(env, s) && Partway(s, RestoreReady(id), t)
    ensures IsIssue(env, t, checksums, issue)
            <==> (s.rows[id].status == Published && issue == UnexpectedStorageArea(id, Quarantine)) || IsAbandonedFile(s, issue)
  {
    hide IsAbandonedFile, Consistent, IsIssue;
    var path := s.rows[id].path;
    forall area, p | p != path
      ensures SameStored(t.disk.files, s.disk.files, Stored(area, p))
    {
      MoveDisturbsOnePath(s.disk, Stored(SoftwareArea, path), Stored(Quarantine, path), area, p);
    }
    OneRowDisturbed(env, s, t, id, checksums, issue);
    ConsistentBytes(env, s, id, SoftwareArea);
    assert Locate(t.disk.files, path) == Some(Quarantine);
  }

  /** A permanent deletion that stopped after staging: the row is reported as long as it is there. */
  lemma InterruptedDeletion(env: Env, s: Snapshot, id: nat, token: string, t: Snapshot, checksums: bool, issue: Issue)
    requires Consistent(env, s) && Partway(s, PermanentlyDelete(id, token), t)
    ensures IsIssue(env, t, checksums, issue)
            <==> (id in t.rows && issue == MetadataWithoutFile(id)) || IsAbandonedFile(s, issue)
  {
    hide IsAbandonedFile, Consistent;
    var path := s.rows[id].path;
    var place := Stored(Locate(s.disk.files, path).value, path);
    forall area, p | p != path
      ensures SameStored(t.disk.files, s.disk.files, Stored(area, p))
    {
      MoveDisturbsOnePath(s.disk, place, StagingPlace(token), area, p);
    }
    StagedIsGone(s.disk, path, place.area, StagingPlace(token));
    if id in t.rows {
      OneRowDisturbed(env, s, t, id, checksums, issue);
    } else {
      RowGone(env, s, t, id, checksums, issue);
    }
  }

  lemma StagedIsGone(d: Disk, path: Path, area: Area, staged: Place)
    requires Locate(d.files, path) == Some(area) && staged.Temporary? && CanMove(d, Stored(area, path), staged)
    ensures StoredAreas(Moved(d, Stored(area, path), staged).files, path) == []
    ensures forall a :: Stored(a, path) !in Moved(d, Stored(area, path), staged).files
  {
    forall a
      ensures Stored(a, path) !in Moved(d, Stored(area, path), staged).files
    {
      match a
      case Quarantine =>
      case SoftwareArea =>
    }
  }

  lemma RowGone(env: Env, s: Snapshot, t: Snapshot, id: nat, checksums: bool, issue: Issue)
    requires Consistent(env, s) && id in s.rows && t.rows == s.rows - {id}
    requires forall area, path :: path != s.rows[id].path ==> SameStored(t.disk.files, s.disk.files, Stored(area, path))
    requires forall area :: Stored(area, s.rows[id].path) !in t.disk.files
    ensures IsIssue(env, t, checksums, issue) <==> IsAbandonedFile(s, issue)
  {
    hide IsRowIssue, SameStored;
    DropKeepsIndexes(s.rows, id);
    forall i | i in t.rows
      ensures !IsRowIssue(env, t.disk.files, i, t.rows[i], checksums, issue)
    {
      UndisturbedRow(env, s, t.disk.files, i, checksums, issue);
    }
    GoneIsNoOrphan(env, s, t, id, issue);
  }

  lemma GoneIsNoOrphan(env: Env, s: Snapshot, t: Snapshot, id: nat, issue: Issue)
    requires Consistent(env, s) && id in s.rows
    requires forall path :: path != s.rows[id].path ==> (Referenced(t.rows, path) <==> Referenced(s.rows, path))
    requires forall area, path :: path != s.rows[id].path ==> SameStored(t.disk.files, s.disk.files, Stored(area, path))
    requires forall area :: Stored(area, s.rows[id].path) !in t.disk.files
    ensures IsOrphanIssue(t.rows, t.disk.files, issue) <==> IsAbandonedFile(s, issue)
  {
    assert Referenced(s.rows, s.rows[id].path);
    if issue.OrphanFile? && issue.place.Stored? && issue.place.path != s.rows[id].path {
      assert SameStored(t.disk.files, s.disk.files, Stored(issue.place.area, issue.place.path));
    }
  }

  /** An upload that stopped before its commit: the file in quarantine is an orphan, a temporary file
      is not looked at. */
  lemma InterruptedUpload(env: Env, s: Snapshot, r: UploadRequest, maxSize: nat, t: Snapshot, checksums: bool, issue: Issue)
    requires Consistent(env, s) && Fresh(s, Upload(r, maxSize)) && Partway(s, Upload(r, maxSize), t)
    ensures IsIssue(env, t, checksums, issue)
            <==> || (Stored(Quarantine, r.path) in t.disk.files && issue == OrphanFile(Stored(Quarantine, r.path), |r.data|))
                 || IsAbandonedFile(s, issue)
  {
    hide IsRowIssue, SameStored;
    var stored := Stored(Quarantine, r.path);
    assert !IsCopyOf(s.disk, stored, r.path) && !IsCopyOf(s.disk, Stored(SoftwareArea, r.path), r.path);
    UploadsDisturbOnePlace(s, r, t);
    NewPathIsUnreferenced(env, s, r.path);
    forall i | i in s.rows
      ensures !IsRowIssue(env, t.disk.files, i, s.rows[i], checksums, issue)
    {
      assert Referenced(s.rows, s.rows[i].path);
      UndisturbedRow(env, s, t.disk.files, i, checksums, issue);
    }
    OrphansOfUpload(env, s, r, t, issue);
  }

  lemma UploadsDisturbOnePlace(s: Snapshot, r: UploadRequest, t: Snapshot)
    requires UploadOnly(s, r, t) || UploadRemovesOther(s, r, t)
    ensures t.rows == s.rows
    ensures forall area, path :: Stored(area, path) != Stored(Quarantine, r.path) ==> SameStored(t.disk.files, s.disk.files, Stored(area, path))
    ensures Stored(Quarantine, r.path) in t.disk.files && Stored(Quarantine, r.path) !in s.disk.files ==>
              t.disk.files[Stored(Quarantine, r.path)] == r.data
  {
  }

  lemma NewPathIsUnreferenced(env: Env, s: Snapshot, path: Path)
    requires Consistent(env, s) && Stored(Quarantine, path) !in s.disk.files && Stored(SoftwareArea, path) !in s.disk.files
    ensures !Referenced(s.rows, path)
  {
    forall id | id in s.rows
      ensures s.rows[id].path != path
    {
      assert Settled(env, s.disk, s.rows[id]);
    }
  }

  lemma OrphansOfUpload(env: Env, s: Snapshot, r: UploadRequest, t: Snapshot, issue: Issue)
    requires Consistent(env, s) && t.rows == s.rows && !Referenced(s.rows, r.path) && Stored(Quarantine, r.path) !in s.disk.files
    requires forall area, path :: Stored(area, path) != Stored(Quarantine, r.path) ==> SameStored(t.disk.files, s.disk.files, Stored(area, path))
    requires Stored(Quarantine, r.path) in t.disk.files ==> t.disk.files[Stored(Quarantine, r.path)] == r.data
    ensures IsOrphanIssue(t.rows, t.disk.files, issue)
            <==> || (Stored(Quarantine, r.path) in t.disk.files && issue == OrphanFile(Stored(Quarantine, r.path), |r.data|))
                 || IsAbandonedFile(s, issue)
  {
    if issue.OrphanFile? && issue.place.Stored? && issue.place != Stored(Quarantine, r.path) {
      assert SameStored(t.disk.files, s.disk.files, Stored(issue.place.area, issue.place.path));
    }
  }

  // ---- Files altered, lost or duplicated behind the application's back ----

  function WithFiles(s: Snapshot, files: Files): Snapshot {
    s.(disk := s.disk.(files := files))
  }

  /** A file whose bytes were replaced is reported for its size, and by a check of the bytes also for
      its digest: without such a check a change that keeps the size goes unnoticed. */
  lemma AlteredFileIsReported(env: Env, s: Snapshot, id: nat, area: Area, data: Bytes, checksums: bool, issue: Issue)
    requires Consistent(env, s) && id in s.rows && Stored(area, s.rows[id].path) in s.disk.files
    ensures var row := s.rows[id];
            var t := WithFiles(s, s.disk.files[Stored(area, row.path) := data]);
            IsIssue(env, t, checksums, issue)
            <==> || (issue == SizeMismatch(id, |data|) && |data| != row.size)
                 || (issue == ChecksumMismatch(id, env.hash(data)) && checksums && (|data| != row.size || env.hash(data) != row.sha256))
                 || IsAbandonedFile(s, issue)
  {
    hide IsAbandonedFile, Consistent, IsIssue;
    var path := s.rows[id].path;
    var t := WithFiles(s, s.disk.files[Stored(area, path) := data]);
    forall a, p | p != path
      ensures SameStored(t.disk.files, s.disk.files, Stored(a, p))
    {
    }
    OneRowDisturbed(env, s, t, id, checksums, issue);
    ConsistentBytes(env, s, id, area);
    AllowedWhereItLies(env, s, id, area);
    assert Locate(t.disk.files, path) == Some(area);
  }

  lemma AllowedWhereItLies(env: Env, s: Snapshot, id: nat, area: Area)
    requires Consistent(env, s) && id in s.rows && Stored(area, s.rows[id].path) in s.disk.files
    ensures AreaAllowed(s.rows[id].status, area)
  {
    assert Settled(env, s.disk, s.rows[id]);
  }

  /** A file that is lost is reported, and so is one that was copied into the other area. */
  lemma LostOrDuplicatedFileIsReported(env: Env, s: Snapshot, id: nat, area: Area, other: Area, data: Bytes, checksums: bool, issue: Issue)
    requires Consistent(env, s) && id in s.rows && Stored(area, s.rows[id].path) in s.disk.files && other != area
    ensures IsIssue(env, WithFiles(s, s.disk.files - {Stored(area, s.rows[id].path)}), checksums, issue)
            <==> issue == MetadataWithoutFile(id) || IsAbandonedFile(s, issue)
    ensures IsIssue(env, WithFiles(s, s.disk.files[Stored(other, s.rows[id].path) := data]), checksums, issue)
            <==> issue == DuplicateStorageLocation(id) || IsAbandonedFile(s, issue)
  {
    hide IsAbandonedFile, Consistent, IsIssue;
    var path := s.rows[id].path;
    var lost := WithFiles(s, s.disk.files - {Stored(area, path)});
    var doubled := WithFiles(s, s.disk.files[Stored(other, path) := data]);
    forall a, p | p != path
      ensures SameStored(lost.disk.files, s.disk.files, Stored(a, p)) && SameStored(doubled.disk.files, s.disk.files, Stored(a, p))
    {
    }
    OneRowDisturbed(env, s, lost, id, checksums, issue);
    OneRowDisturbed(env, s, doubled, id, checksums, issue);
    ConsistentBytes(env, s, id, area);
    assert Stored(other, path) !in s.disk.files;
  }
}
