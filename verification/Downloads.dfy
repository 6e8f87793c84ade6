/** Who may download what: the links a page shows, and what the download service grants
    (`app/services/public_catalog_service.py`, `app/services/download_service.py`). */
module Downloads {
  import opened Prelude
  import opened Signatures
  import opened Policies
  import opened DownloadStats
  import opened StorageState
  import opened Lifecycle
  import opened FileService
  import opened Durability

  datatype Grant = Grant(path: Path, etag: Digest, isPrivate: bool)

  datatype Decision =
    | Granted(grant: Grant)
    | Blocked        // refused by policy, and counted
    | FileMissing    // refused because of the stored file, and not counted

  /** The chain of checks behind authorize, for the row its identifier resolves to. */
  function Decide(s: Snapshot, row: FileRow, filename: string, isAdmin: bool): Decision {
    if filename != row.displayFilename then Blocked
    else if !HasParents(row, s.releases, s.softwares) then Blocked
    else
      var release := s.releases[row.releaseId];
      if !CanDownloadFile(row, release, s.softwares[release.softwareId], isAdmin) then Blocked
      else if Locate(s.disk.files, row.path) != Some(SoftwareArea) then FileMissing
      else if |s.disk.files[Stored(SoftwareArea, row.path)]| != row.size then FileMissing
      else Granted(Grant(row.path, row.sha256, row.visibility == Private))
  }

  /** The files whose download links the page of a software entry shows. */
  function ShownFiles(s: Snapshot, softwareId: nat, isAdmin: bool): set<nat> {
    set id | id in s.rows
      && HasParents(s.rows[id], s.releases, s.softwares)
      && s.releases[s.rows[id].releaseId].softwareId == softwareId
      && s.releases[s.rows[id].releaseId].status in {ReleasePublished, ReleaseArchived}
      && IsListableFile(s.rows[id], isAdmin)
  }

  /** A published file of a published or archived release of published or archived software; for an
      anonymous visitor, neither file nor software private. */
  predicate IsAuthorised(s: Snapshot, row: FileRow, isAdmin: bool) {
    && row.status == Published
    && row.releaseId in s.releases && s.releases[row.releaseId].softwareId in s.softwares
    && var release := s.releases[row.releaseId];
       var software := s.softwares[release.softwareId];
       && release.status in {ReleasePublished, ReleaseArchived}
       && software.status in {SoftwarePublished, SoftwareArchived}
       && (!isAdmin ==> row.visibility != Private && software.visibility != Private)
  }

  /** In any state, nothing is granted but an authorised file, by its own name, that lies in the
      software area alone with the size of its row. */
  lemma GrantsAreAuthorised(s: Snapshot, row: FileRow, filename: string, isAdmin: bool)
    requires Decide(s, row, filename, isAdmin).Granted?
    ensures filename == row.displayFilename && IsAuthorised(s, row, isAdmin)
    ensures StoredAreas(s.disk.files, row.path) == [SoftwareArea] && |s.disk.files[Stored(SoftwareArea, row.path)]| == row.size
    ensures var grant := Decide(s, row, filename, isAdmin).grant;
            grant.path == row.path && grant.etag == row.sha256 && (grant.isPrivate <==> row.visibility == Private)
  {
  }

  class DownloadService {
    const hub: Hub

    constructor (hub: Hub)
      ensures this.hub == hub
    {
      this.hub := hub;
    }

    /** get_by_public_uuid */
    method FindByPublicUuid(publicUuid: string) returns (id: Option<nat>)
      ensures id.Some? ==> id.value in hub.rows && hub.rows[id.value].publicUuid == publicUuid
      ensures id.None? ==> forall i :: i in hub.rows ==> hub.rows[i].publicUuid != publicUuid
    {
      var remaining := hub.rows.Keys;
      while remaining != {}
        invariant remaining <= hub.rows.Keys
        invariant forall i :: i in hub.rows && i !in remaining ==> hub.rows[i].publicUuid != publicUuid
        decreases remaining
      {
        var i :| i in remaining;
        if hub.rows[i].publicUuid == publicUuid {
          return Some(i);
        }
        remaining := remaining - {i};
      }
      id := None;
    }

    /** Decides, and counts: a granted GET as a download, a refusal by policy as a blocked attempt,
        a HEAD request and everything else not at all. */
    method Authorize(publicUuid: string, filename: string, isAdmin: bool, countDownload: bool, day: int, commitFails: bool)
      returns (result: Result<Grant, Error>)
      requires hub.Valid()
      modifies hub`rows, hub.daily
      ensures hub.Valid() && (old(Survives(hub.env, hub.rows, hub.Storage())) ==> Survives(hub.env, hub.rows, hub.Storage()))
      ensures (forall i :: i in old(hub.rows) ==> old(hub.rows)[i].publicUuid != publicUuid) ==>
                result == Failure(EntityNotFound) && hub.State() == old(hub.State())
      ensures forall id :: id in old(hub.rows) && old(hub.rows)[id].publicUuid == publicUuid && Indexed(old(hub.rows)) ==>
                var s := old(hub.State());
                var decision := Decide(s, s.rows[id], filename, isAdmin);
                var counted := AtomicRecordDownload(s, id, day).value;
                && (result.Success? ==> filename == s.rows[id].displayFilename && IsAuthorised(s, s.rows[id], isAdmin))
                && (result.Success? ==> decision == Granted(result.value) && hub.State() == if countDownload then counted else s)
                && (result.Failure? && decision.Granted? ==> commitFails && countDownload && hub.State() == s)
                && (decision.Blocked? ==> hub.State() == if commitFails then s else AtomicRecordBlocked(s, id, day).value)
                && (decision.FileMissing? ==> hub.State() == s)
    {
      hide Survives, CanDownloadFile, IsAuthorised;
      var found := FindByPublicUuid(publicUuid);
      if found == None {
        return Failure(EntityNotFound);
      }
      var id := found.value;
      var row := hub.rows[id];
      if filename != row.displayFilename || !HasParents(row, hub.releases, hub.softwares) {
        RecordBlocked(id, day, commitFails);
        return Failure(EntityNotFound);
      }
      var release := hub.releases[row.releaseId];
      if !CanDownloadFile(row, release, hub.softwares[release.softwareId], isAdmin) {
        RecordBlocked(id, day, commitFails);
        return Failure(EntityNotFound);
      }
      var stored := hub.LocateStoredFile(row.path);
      if stored != Some(SoftwareArea) {
        return Failure(EntityNotFound);
      }
      if |hub.files[Stored(SoftwareArea, row.path)]| != row.size {
        return Failure(EntityNotFound);
      }
      GrantsAreAuthorised(hub.State(), row, filename, isAdmin);
      if countDownload {
        var ok := RecordAuthorizedStart(id, day, commitFails);
        if !ok {
          return Failure(StorageError);
        }
      }
      result := Success(Grant(row.path, row.sha256, row.visibility == Private));
    }

    /** One transaction: the file's total and its row for the day. */
    method RecordAuthorizedStart(id: nat, day: int, commitFails: bool) returns (ok: bool)
      requires hub.Valid() && id in hub.rows
      modifies hub`rows, hub.daily
      ensures ok == !commitFails
      ensures hub.State() == if ok then AtomicRecordDownload(old(hub.State()), id, day).value else old(hub.State())
      ensures old(Survives(hub.env, hub.rows, hub.Storage())) ==> Survives(hub.env, hub.rows, hub.Storage())
    {
      hide Survives, WellFormed, Upserted, Bumped, DaysOf;
      if commitFails {
        return false;
      }
      var row := hub.rows[id].(downloadCount := hub.rows[id].downloadCount + 1);
      if Survives(hub.env, hub.rows, hub.Storage()) {
        RowUpdateKeepsSurvival(hub.env, hub.rows, hub.Storage(), id, row);
      }
      hub.rows := hub.rows[id := row];
      hub.daily.UpsertDaily(id, day, AUTHORIZED, true);
      ok := true;
    }

    /** A failure to count a blocked attempt is only logged. */
    method RecordBlocked(id: nat, day: int, commitFails: bool)
      requires hub.Valid() && id in hub.rows
      modifies hub.daily
      ensures hub.State() == if commitFails then old(hub.State()) else AtomicRecordBlocked(old(hub.State()), id, day).value
    {
      if !commitFails {
        hub.daily.UpsertDaily(id, day, BLOCKED, true);
      }
    }
  }

  // ---- Who is refused ----

  /** In a consistent state that is exactly what is granted, everything else is blocked and counted,
      and no file is ever missing. */
  lemma GrantedExactlyWhen(env: Env, s: Snapshot, id: nat, filename: string, isAdmin: bool)
    requires Consistent(env, s) && id in s.rows
    ensures Decide(s, s.rows[id], filename, isAdmin).Granted?
            <==> filename == s.rows[id].displayFilename && IsAuthorised(s, s.rows[id], isAdmin)
    ensures !Decide(s, s.rows[id], filename, isAdmin).FileMissing?
  {
    assert Settled(env, s.disk, s.rows[id]);
  }

  /** Pages and grants: an anonymous visitor is shown, on pages they may view, exactly the public
      files they would be granted; an administrator may view the page of everything they would be
      granted and is shown its link. */
  lemma PagesShowWhatIsGranted(env: Env, s: Snapshot, id: nat)
    requires Consistent(env, s) && id in s.rows
    ensures var softwareId := s.releases[s.rows[id].releaseId].softwareId;
            && ((CanViewSoftware(s.softwares[softwareId], false) && id in ShownFiles(s, softwareId, false))
                <==> s.rows[id].visibility == Public && Decide(s, s.rows[id], s.rows[id].displayFilename, false).Granted?)
            && (Decide(s, s.rows[id], s.rows[id].displayFilename, true).Granted? ==>
                  CanViewSoftware(s.softwares[softwareId], true) && id in ShownFiles(s, softwareId, true))
            && forall other :: other != softwareId ==> id !in ShownFiles(s, other, true) && id !in ShownFiles(s, other, false)
  {
    assert Settled(env, s.disk, s.rows[id]);
  }

  /** Who may view a page at all: disabled software nobody, drafts and hidden software only an
      administrator, private software only an administrator, and everything else everyone. */
  lemma WhoMayViewAPage(software: Software)
    ensures software.status == SoftwareDisabled ==> !CanViewSoftware(software, true) && !CanViewSoftware(software, false)
    ensures software.status in {SoftwareDraft, SoftwareHidden} ==> CanViewSoftware(software, true) && !CanViewSoftware(software, false)
    ensures software.status in {SoftwarePublished, SoftwareArchived} ==>
              CanViewSoftware(software, true) && (CanViewSoftware(software, false) <==> software.visibility != Private)
  {
  }

  // ---- Links and grants ----

  /** Every download link shown to an anonymous visitor on a page they may view is granted, in
      every consistent state and whatever the statuses of software and releases. */
  lemma AnonymousLinksAreGranted(env: Env, s: Snapshot, softwareId: nat, id: nat)
    requires Consistent(env, s) && softwareId in s.softwares && CanViewSoftware(s.softwares[softwareId], false)
    requires id in ShownFiles(s, softwareId, false)
    ensures Decide(s, s.rows[id], s.rows[id].displayFilename, false).Granted?
  {
    assert Settled(env, s.disk, s.rows[id]);
  }

  /** For an administrator a link is shown on every page that is not disabled, but it is granted
      exactly when the software is published or archived. */
  lemma AdminLinksAreGrantedExactlyWhen(env: Env, s: Snapshot, softwareId: nat, id: nat)
    requires Consistent(env, s) && softwareId in s.softwares && CanViewSoftware(s.softwares[softwareId], true)
    requires id in ShownFiles(s, softwareId, true)
    ensures Decide(s, s.rows[id], s.rows[id].displayFilename, true).Granted?
            <==> s.softwares[softwareId].status in {SoftwarePublished, SoftwareArchived}
  {
    assert Settled(env, s.disk, s.rows[id]);
  }

  /** A file an administrator is shown and refused: its software was hidden after publication. */
  lemma HiddenSoftwareShowsARefusedLink(env: Env) returns (s: Snapshot)
    requires env.sampleSize >= 4 && env.fold(".zip") == ".zip" && FixesMimeTypes(env.fold)
    ensures Consistent(env, s)
    ensures 0 in s.softwares && CanViewSoftware(s.softwares[0], true) && 0 in ShownFiles(s, 0, true)
    ensures Decide(s, s.rows[0], s.rows[0].displayFilename, true) == Blocked
  {
    var data: Bytes := [0x50, 0x4B, 3, 4];
    var place := Stored(SoftwareArea, "a");
    var row := FileRow(0, "u", "a.zip", "a", ".zip", ZIP.mimeType, 4, env.hash(data), Published, Public, Clean, Some(0), None, 0);
    s := Snapshot(map[0 := row], map[0 := Release(0, ReleasePublished)], map[0 := Software(SoftwareHidden, Public)],
                  map[], Disk(map[place := data], map[]), {});
    assert Sample(env, data) == data;
    assert StoredMimeType(data) == ZIP.mimeType by { DetectionOrderIrrelevant(data); }
    assert AssessStored(env.fold, ".zip", ZIP.mimeType) == Match by { DistinctTypes(); }
    assert Locate(s.disk.files, "a") == Some(SoftwareArea);
    assert Settled(env, s.disk, row);
    assert Referenced(s.rows, "a") by { assert s.rows[0].path == "a"; }
    assert OrphansAreAbandoned(s.rows, s.disk.files, s.abandoned);
    assert CountAgrees(row, DaysOf(s.stats, 0));
  }

  /** Every grant, to anyone, points at the one file in the software area, and that file has the
      size and digest of its row. This needs only that the row survives, so it holds even in states
      left behind by a crash. */
  lemma GrantsPointAtTheFile(env: Env, s: Snapshot, id: nat, filename: string, isAdmin: bool)
    requires Survives(env, s.rows, s.disk) && id in s.rows
    requires Decide(s, s.rows[id], filename, isAdmin).Granted?
    ensures var grant := Decide(s, s.rows[id], filename, isAdmin).grant;
            var place := Stored(SoftwareArea, grant.path);
            && IsOnlyCopy(env, s.disk, s.rows[id], place)
            && env.hash(s.disk.files[place]) == grant.etag
  {
    var row := s.rows[id];
    var place :| IsOnlyCopy(env, s.disk, row, place);
    assert IsCopyOf(s.disk, Stored(SoftwareArea, row.path), row.path);
  }

  /** What a visitor downloads was screened: the bytes themselves carry the signature of their
      extension, and the scan was clean or unavailable. This too holds after a crash. */
  lemma DownloadsAreScreened(env: Env, s: Snapshot, id: nat, filename: string, isAdmin: bool)
    requires Durable(env, s) && id in s.rows && FixesMimeTypes(env.fold)
    requires Decide(s, s.rows[id], filename, isAdmin).Granted?
    ensures AssessSample(env.fold, s.rows[id].extension, Sample(env, s.disk.files[Stored(SoftwareArea, s.rows[id].path)])) == Match
    ensures s.rows[id].scanner in {Clean, Unavailable}
  {
    var row := s.rows[id];
    GrantsPointAtTheFile(env, s, id, filename, isAdmin);
    StoredAssessmentAgrees(env.fold, row.extension, Sample(env, s.disk.files[Stored(SoftwareArea, row.path)]));
  }

  /** What is safe in a state: infected files are neither ready nor published, the counters of every
      file add up, and every grant, to anyone, points at the only copy of a screened file. */
  ghost predicate Safe(env: Env, s: Snapshot) {
    && (forall id :: id in s.rows ==>
          && (s.rows[id].scanner == Infected ==> s.rows[id].status !in {Ready, Published})
          && Total(DaysOf(s.stats, id)).downloads == s.rows[id].downloadCount == Total(DaysOf(s.stats, id)).successful)
    && (forall id, filename, isAdmin :: id in s.rows && Decide(s, s.rows[id], filename, isAdmin).Granted? ==>
          GrantIsSound(env, s, s.rows[id]))
  }

  ghost predicate GrantIsSound(env: Env, s: Snapshot, row: FileRow) {
    var place := Stored(SoftwareArea, row.path);
    && IsOnlyCopy(env, s.disk, row, place)
    && AssessSample(env.fold, row.extension, Sample(env, s.disk.files[place])) == Match
    && row.scanner in {Clean, Unavailable}
  }

  lemma DurableIsSafe(env: Env, s: Snapshot)
    requires Durable(env, s) && FixesMimeTypes(env.fold)
    ensures Safe(env, s)
  {
    hide Survives, Decide, AssessSample, FixesMimeTypes, IsOnlyCopy;
    forall id | id in s.rows
      ensures s.rows[id].scanner == Infected ==> s.rows[id].status !in {Ready, Published}
      ensures Total(DaysOf(s.stats, id)).downloads == s.rows[id].downloadCount == Total(DaysOf(s.stats, id)).successful
    {
      assert Screened(env.fold, s.rows[id]) && CountAgrees(s.rows[id], DaysOf(s.stats, id));
    }
    forall id, filename, isAdmin | id in s.rows && Decide(s, s.rows[id], filename, isAdmin).Granted?
      ensures GrantIsSound(env, s, s.rows[id])
    {
      GrantsPointAtTheFile(env, s, id, filename, isAdmin);
      DownloadsAreScreened(env, s, id, filename, isAdmin);
      GrantNamesItsRow(s, s.rows[id], filename, isAdmin);
    }
  }

  lemma GrantNamesItsRow(s: Snapshot, row: FileRow, filename: string, isAdmin: bool)
    requires Decide(s, row, filename, isAdmin).Granted?
    ensures Decide(s, row, filename, isAdmin).grant.path == row.path
  {
  }

  /** Every link on every page that an anonymous visitor may view is granted. */
  ghost predicate LinksWork(s: Snapshot) {
    forall softwareId, id :: softwareId in s.softwares && CanViewSoftware(s.softwares[softwareId], false)
                             && id in ShownFiles(s, softwareId, false) ==>
      Decide(s, s.rows[id], s.rows[id].displayFilename, false).Granted?
  }

  lemma ConsistentLinksWork(env: Env, s: Snapshot)
    requires Consistent(env, s)
    ensures LinksWork(s)
  {
    hide Consistent, Decide, CanViewSoftware, ShownFiles;
    forall softwareId, id | softwareId in s.softwares && CanViewSoftware(s.softwares[softwareId], false)
                            && id in ShownFiles(s, softwareId, false)
      ensures id in s.rows && Decide(s, s.rows[id], s.rows[id].displayFilename, false).Granted?
    {
      ShownIsARow(s, softwareId, id, false);
      AnonymousLinksAreGranted(env, s, softwareId, id);
    }
  }

  lemma ShownIsARow(s: Snapshot, softwareId: nat, id: nat, isAdmin: bool)
    requires id in ShownFiles(s, softwareId, isAdmin)
    ensures id in s.rows
  {
  }

  /** In every state reached by whole operations, links work, downloads are screened, infected files
      stay hidden, and the counters of every file add up. */
  lemma EveryReachableStateIsSafe(env: Env, s: Snapshot, run: seq<Step>)
    requires Consistent(env, s) && FreshRun(env, s, run) && FixesMimeTypes(env.fold)
    ensures LinksWork(Run(env, s, run)) && Safe(env, Run(env, s, run))
    ensures forall id :: id in Run(env, s, run).rows && Run(env, s, run).rows[id].status == Published ==>
              StoredAreas(Run(env, s, run).disk.files, Run(env, s, run).rows[id].path) == [SoftwareArea]
  {
    hide Consistent, Safe, LinksWork;
    var t := Run(env, s, run);
    ConsistencyOverRuns(env, s, run);
    ConsistentIsDurable(env, t);
    DurableIsSafe(env, t);
    ConsistentLinksWork(env, t);
    forall id | id in t.rows && t.rows[id].status == Published
      ensures StoredAreas(t.disk.files, t.rows[id].path) == [SoftwareArea]
    {
      PublishedIsInSoftware(env, t, id);
    }
  }

  lemma PublishedIsInSoftware(env: Env, s: Snapshot, id: nat)
    requires Consistent(env, s) && id in s.rows && s.rows[id].status == Published
    ensures StoredAreas(s.disk.files, s.rows[id].path) == [SoftwareArea]
  {
    assert Settled(env, s.disk, s.rows[id]);
  }
}
