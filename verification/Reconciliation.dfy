/** The independent check of rows against stored files (`app/services/reconciliation_service.py`). */
module Reconciliation {
  import opened Prelude
  import opened Policies
  import opened StorageState
  import opened Lifecycle

  datatype Issue =
    | MetadataWithoutFile(id: nat)
    | DuplicateStorageLocation(id: nat)
    | UnexpectedStorageArea(id: nat, area: Area)
    | SizeMismatch(id: nat, actualSize: nat)
    | ChecksumMismatch(id: nat, actualDigest: Digest)
    | OrphanFile(place: Place, size: nat)

  datatype Report = Report(metadataCount: nat, physicalFileCount: nat, verifiedCount: nat, issues: seq<Issue>) {
    predicate Healthy() {
      issues == []
    }
  }

  // ---- What the report should say ----

  ghost predicate IsRowIssue(env: Env, files: Files, id: nat, row: FileRow, checksums: bool, issue: Issue) {
    match Locate(files, row.path)
    case None =>
      issue == if StoredAreas(files, row.path) == [] then MetadataWithoutFile(id) else DuplicateStorageLocation(id)
    case Some(area) =>
      var data := files[Stored(area, row.path)];
      || (issue == UnexpectedStorageArea(id, area) && !AreaAllowed(row.status, area))
      || (issue == SizeMismatch(id, |data|) && |data| != row.size)
      || (issue == ChecksumMismatch(id, env.hash(data)) && checksums && (|data| != row.size || env.hash(data) != row.sha256))
  }

  ghost predicate IsOrphanIssue(rows: map<nat, FileRow>, files: Files, issue: Issue) {
    && issue.OrphanFile?
    && issue.place in files
    && IsOrphan(rows, issue.place)
    && issue.size == |files[issue.place]|
  }

  ghost predicate IsIssue(env: Env, s: Snapshot, checksums: bool, issue: Issue) {
    || IsOrphanIssue(s.rows, s.disk.files, issue)
    || IsIssueOfRows(env, s.disk.files, s.rows, checksums, issue)
  }

  /** What verify_storage exists to establish. */
  ghost predicate Healthy(env: Env, s: Snapshot) {
    && (forall id :: id in s.rows ==> HealthyRow(env, s.disk.files, s.rows[id]))
    && (forall place :: place in s.disk.files && place.Stored? ==> Referenced(s.rows, place.path))
  }

  /** One file, in an allowed area, with the row's size and digest. */
  ghost predicate HealthyRow(env: Env, files: Files, row: FileRow) {
    var area := Locate(files, row.path);
    && area.Some?
    && AreaAllowed(row.status, area.value)
    && |files[Stored(area.value, row.path)]| == row.size
    && env.hash(files[Stored(area.value, row.path)]) == row.sha256
  }

  function StoredFiles(files: Files): set<Place> {
    set place | place in files && place.Stored?
  }

  /** A row whose content was verified, wherever its file lies. */
  predicate ContentVerified(env: Env, files: Files, row: FileRow, checksums: bool) {
    Verified(env, files, row, checksums).Success?
  }

  lemma RowIsHealthyExactlyWhen(env: Env, files: Files, id: nat, row: FileRow)
    ensures HealthyRow(env, files, row) <==> forall issue :: !IsRowIssue(env, files, id, row, true, issue)
  {
    match Locate(files, row.path)
    case None =>
      var issue := if StoredAreas(files, row.path) == [] then MetadataWithoutFile(id) else DuplicateStorageLocation(id);
      assert IsRowIssue(env, files, id, row, true, issue);
    case Some(area) =>
      var data := files[Stored(area, row.path)];
      if !AreaAllowed(row.status, area) {
        assert IsRowIssue(env, files, id, row, true, UnexpectedStorageArea(id, area));
      } else if |data| != row.size || env.hash(data) != row.sha256 {
        assert IsRowIssue(env, files, id, row, true, ChecksumMismatch(id, env.hash(data)));
      }
  }

  /** There is no issue exactly when every row has its one file as it should be, and every stored
      file belongs to a row. */
  lemma HealthyExactlyWhenNoIssue(env: Env, s: Snapshot)
    ensures Healthy(env, s) <==> forall issue :: !IsIssue(env, s, true, issue)
  {
    hide HealthyRow, IsRowIssue;
    forall id | id in s.rows
      ensures HealthyRow(env, s.disk.files, s.rows[id])
              <==> forall issue :: !IsRowIssue(env, s.disk.files, id, s.rows[id], true, issue)
    {
      RowIsHealthyExactlyWhen(env, s.disk.files, id, s.rows[id]);
    }
    if forall issue :: !IsIssue(env, s, true, issue) {
      forall id, issue | id in s.rows
        ensures !IsRowIssue(env, s.disk.files, id, s.rows[id], true, issue)
      {
        assert !IsIssue(env, s, true, issue);
      }
      forall place | place in s.disk.files && place.Stored?
        ensures Referenced(s.rows, place.path)
      {
        assert !IsIssue(env, s, true, OrphanFile(place, |s.disk.files[place]|));
      }
    }
  }

  // ---- The check itself ----

  /** What one row contributes, in the order of the source's tests. */
  method CheckRow(env: Env, files: Files, id: nat, row: FileRow, checksums: bool)
    returns (issues: seq<Issue>, verified: bool)
    ensures forall issue :: issue in issues <==> IsRowIssue(env, files, id, row, checksums, issue)
    ensures verified == ContentVerified(env, files, row, checksums)
  {
    var matches := StoredAreas(files, row.path);
    if matches == [] {
      return [MetadataWithoutFile(id)], false;
    }
    if |matches| > 1 {
      return [DuplicateStorageLocation(id)], false;
    }
    var data := files[Stored(matches[0], row.path)];
    issues := [];
    if !AreaAllowed(row.status, matches[0]) {
      issues := issues + [UnexpectedStorageArea(id, matches[0])];
    }
    if |data| != row.size {
      issues := issues + [SizeMismatch(id, |data|)];
    }
    var checksumMatches := true;
    if checksums {
      var digest := env.hash(data);
      if |data| != row.size || digest != row.sha256 {
        checksumMatches := false;
        issues := issues + [ChecksumMismatch(id, digest)];
      }
    }
    verified := |data| == row.size && checksumMatches;
  }

  /** The stored files that belong to some row. */
  function OwnedPlaces(files: Files, rows: map<nat, FileRow>): set<Place> {
    set place | place in files && place.Stored? && Referenced(rows, place.path)
  }

  function PlacesAt(files: Files, path: Path): set<Place> {
    set place | place in files && place.Stored? && place.path == path
  }

  lemma PlacesAtCount(files: Files, path: Path)
    ensures |PlacesAt(files, path)| == |StoredAreas(files, path)|
  {
    var q, s := Stored(Quarantine, path), Stored(SoftwareArea, path);
    var places := (if q in files then {q} else {}) + (if s in files then {s} else {});
    forall place
      ensures place in PlacesAt(files, path) <==> place in places
    {
      if place in PlacesAt(files, path) {
        assert place == q || place == s by { match place.area { case Quarantine => case SoftwareArea => } }
      }
    }
    assert PlacesAt(files, path) == places;
  }

  /** One more row adds its own files, and counts them once. */
  lemma OneMoreOwner(files: Files, rows: map<nat, FileRow>, seen: map<nat, FileRow>, id: nat)
    requires UniquePaths(rows) && id in rows && id !in seen
    requires forall i :: i in seen ==> i in rows && seen[i] == rows[i]
    ensures |OwnedPlaces(files, seen[id := rows[id]])| == |OwnedPlaces(files, seen)| + |StoredAreas(files, rows[id].path)|
  {
    var more, path := seen[id := rows[id]], rows[id].path;
    assert more[id].path == path;
    forall p
      ensures Referenced(more, p) <==> Referenced(seen, p) || p == path
    {
      if i :| i in seen && seen[i].path == p {
        assert more[i].path == p;
      }
    }
    assert !Referenced(seen, path);
    PlacesAtCount(files, path);
    assert OwnedPlaces(files, seen) !! PlacesAt(files, path);
    assert OwnedPlaces(files, more) == OwnedPlaces(files, seen) + PlacesAt(files, path);
  }

  function VerifiedIds(env: Env, files: Files, rows: map<nat, FileRow>, checksums: bool): set<nat> {
    set id | id in rows && ContentVerified(env, files, rows[id], checksums)
  }

  /** The rows counted as verified: one file, with the size of the row, and with its digest if bytes are
      read; the area does not matter. */
  lemma VerifiedExactlyWhen(env: Env, files: Files, rows: map<nat, FileRow>, checksums: bool, id: nat)
    ensures id in VerifiedIds(env, files, rows, checksums)
            <==> && id in rows
                 && exists area :: StoredAreas(files, rows[id].path) == [area] && Stored(area, rows[id].path) in files
                                   && |files[Stored(area, rows[id].path)]| == rows[id].size
                                   && (checksums ==> env.hash(files[Stored(area, rows[id].path)]) == rows[id].sha256)
  {
    if id in rows && Locate(files, rows[id].path).Some? {
      var area := Locate(files, rows[id].path).value;
      assert StoredAreas(files, rows[id].path) == [area];
    }
  }

  lemma OneMoreVerified(env: Env, files: Files, seen: map<nat, FileRow>, id: nat, row: FileRow, checksums: bool)
    requires id !in seen
    ensures |VerifiedIds(env, files, seen[id := row], checksums)|
            == |VerifiedIds(env, files, seen, checksums)| + if ContentVerified(env, files, row, checksums) then 1 else 0
  {
    assert VerifiedIds(env, files, seen[id := row], checksums)
      == VerifiedIds(env, files, seen, checksums) + if ContentVerified(env, files, row, checksums) then {id} else {};
  }

  ghost predicate IsIssueOfRows(env: Env, files: Files, rows: map<nat, FileRow>, checksums: bool, issue: Issue) {
    exists id :: id in rows && IsRowIssue(env, files, id, rows[id], checksums, issue)
  }

  lemma OneMoreRowOfIssues(env: Env, files: Files, seen: map<nat, FileRow>, id: nat, row: FileRow, checksums: bool, issue: Issue)
    requires id !in seen
    ensures IsIssueOfRows(env, files, seen[id := row], checksums, issue)
            <==> IsIssueOfRows(env, files, seen, checksums, issue) || IsRowIssue(env, files, id, row, checksums, issue)
  {
    hide IsRowIssue;
    var more := seen[id := row];
    assert id in more && more[id] == row;
    if i :| i in seen && IsRowIssue(env, files, i, seen[i], checksums, issue) {
      assert i in more && IsRowIssue(env, files, i, more[i], checksums, issue);
    }
  }

  function OrphanSet(rows: map<nat, FileRow>, files: Files): set<Place> {
    set place | place in files && IsOrphan(rows, place)
  }

  ghost predicate Enumerates(places: seq<Place>, whole: set<Place>) {
    && (forall place :: place in places <==> place in whole)
    && (forall i, j :: 0 <= i < j < |places| ==> places[i] != places[j])
    && |places| == |whole|
  }

  /** _orphan_issues: the walk over both areas, in no particular order. */
  method FindOrphans(rows: map<nat, FileRow>, files: Files) returns (orphans: seq<Place>)
    ensures Enumerates(orphans, OrphanSet(rows, files))
    ensures forall i :: 0 <= i < |orphans| ==> orphans[i] in files && IsOrphan(rows, orphans[i])
  {
    orphans := [];
    var unseen := files.Keys;
    ghost var found: set<Place> := {};
    while unseen != {}
      invariant unseen <= files.Keys
      invariant found == set place | place in files && place !in unseen && IsOrphan(rows, place)
      invariant Enumerates(orphans, found)
      invariant forall i :: 0 <= i < |orphans| ==> orphans[i] in files && IsOrphan(rows, orphans[i])
      decreases unseen
    {
      var place :| place in unseen;
      unseen := unseen - {place};
      if IsOrphan(rows, place) {
        assert place !in orphans;
        orphans := orphans + [place];
        found := found + {place};
      }
    }
    assert found == OrphanSet(rows, files);
  }

  /** The loop of verify_storage over the rows. */
  method CheckRows(env: Env, rows: map<nat, FileRow>, files: Files, checksums: bool)
    returns (issues: seq<Issue>, physicalCount: nat, verifiedCount: nat)
    requires UniquePaths(rows)
    ensures forall issue :: issue in issues <==> IsIssueOfRows(env, files, rows, checksums, issue)
    ensures physicalCount == |OwnedPlaces(files, rows)|
    ensures verifiedCount == |VerifiedIds(env, files, rows, checksums)|
  {
    hide IsRowIssue, ContentVerified, StoredAreas, OwnedPlaces, VerifiedIds, UniquePaths;
    issues, physicalCount, verifiedCount := [], 0, 0;
    var remaining := rows.Keys;
    ghost var seen: map<nat, FileRow> := map[];
    NoRows(env, files, checksums);
    while remaining != {}
      invariant remaining <= rows.Keys
      invariant seen == map id | id in rows && id !in remaining :: rows[id]
      invariant forall issue :: issue in issues <==> IsIssueOfRows(env, files, seen, checksums, issue)
      invariant physicalCount == |OwnedPlaces(files, seen)|
      invariant verifiedCount == |VerifiedIds(env, files, seen, checksums)|
      decreases remaining
    {
      var id :| id in remaining;
      var row := rows[id];
      var rowIssues, verified := CheckRow(env, files, id, row, checksums);
      forall issue {
        OneMoreRowOfIssues(env, files, seen, id, row, checksums, issue);
      }
      OneMoreOwner(files, rows, seen, id);
      OneMoreVerified(env, files, seen, id, row, checksums);
      physicalCount := physicalCount + |StoredAreas(files, row.path)|;
      issues := issues + rowIssues;
      if verified {
        verifiedCount := verifiedCount + 1;
      }
      remaining := remaining - {id};
      seen := seen[id := row];
    }
    assert seen == rows;
  }

  lemma NoRows(env: Env, files: Files, checksums: bool)
    ensures OwnedPlaces(files, map[]) == {} && VerifiedIds(env, files, map[], checksums) == {}
  {
  }

  function AsIssues(files: Files, orphans: seq<Place>): (issues: seq<Issue>)
    requires forall i :: 0 <= i < |orphans| ==> orphans[i] in files
    ensures |issues| == |orphans|
    ensures forall i :: 0 <= i < |orphans| ==> issues[i] == OrphanFile(orphans[i], |files[orphans[i]]|)
  {
    seq(|orphans|, i requires 0 <= i < |orphans| => OrphanFile(orphans[i], |files[orphans[i]]|))
  }

  /** verify_storage, on storage that holds regular files only. The paths of the rows are unique. */
  method VerifyStorage(env: Env, s: Snapshot, checksums: bool) returns (report: Report)
    requires UniquePaths(s.rows)
    ensures forall issue :: issue in report.issues <==> IsIssue(env, s, checksums, issue)
    ensures checksums ==> (report.Healthy() <==> Healthy(env, s))
    ensures report.metadataCount == |s.rows|
    ensures report.physicalFileCount == |StoredFiles(s.disk.files)|
    ensures report.verifiedCount == |VerifiedIds(env, s.disk.files, s.rows, checksums)|
  {
    hide IsIssueOfRows, VerifiedIds, Healthy, Referenced, OwnedPlaces, StoredFiles, IsOrphanIssue;
    var rows, files := s.rows, s.disk.files;
    var issues, physicalCount, verifiedCount := CheckRows(env, rows, files, checksums);
    var orphans := FindOrphans(rows, files);
    var orphanIssues := AsIssues(files, orphans);
    EveryOrphanIsAnIssue(rows, files, orphans, orphanIssues);
    OwnedAndOrphanedAreAll(rows, files);
    report := Report(|rows|, physicalCount + |orphans|, verifiedCount, issues + orphanIssues);
    HealthyExactlyWhenNoIssue(env, s);
    if report.issues != [] {
      assert report.issues[0] in report.issues;
    }
  }

  /** Every stored file either belongs to a row or is an orphan, and none is both. */
  lemma OwnedAndOrphanedAreAll(rows: map<nat, FileRow>, files: Files)
    ensures |OwnedPlaces(files, rows)| + |OrphanSet(rows, files)| == |StoredFiles(files)|
  {
    assert OwnedPlaces(files, rows) !! OrphanSet(rows, files);
    assert OwnedPlaces(files, rows) + OrphanSet(rows, files) == StoredFiles(files);
  }

  lemma EveryOrphanIsAnIssue(rows: map<nat, FileRow>, files: Files, orphans: seq<Place>, issues: seq<Issue>)
    requires Enumerates(orphans, OrphanSet(rows, files)) && |issues| == |orphans|
    requires forall i :: 0 <= i < |orphans| ==> orphans[i] in files && issues[i] == OrphanFile(orphans[i], |files[orphans[i]]|)
    ensures forall issue :: issue in issues <==> IsOrphanIssue(rows, files, issue)
  {
    forall issue | issue in issues
      ensures IsOrphanIssue(rows, files, issue)
    {
      var i :| 0 <= i < |issues| && issues[i] == issue;
      assert orphans[i] in orphans;
    }
    forall issue | IsOrphanIssue(rows, files, issue)
      ensures issue in issues
    {
      assert issue.place in orphans;
      var i :| 0 <= i < |orphans| && orphans[i] == issue.place;
      assert issues[i] == issue;
    }
  }

  // ---- What it says of the states the application reaches ----

  ghost predicate IsAbandonedFile(s: Snapshot, issue: Issue) {
    && issue.OrphanFile?
    && issue.place in s.abandoned
    && issue.place in s.disk.files
    && issue.size == |s.disk.files[issue.place]|
  }

  /** In every consistent state the issues are exactly the files left behind by delete-metadata and
      not yet cleaned. */
  lemma OnlyAbandonedFilesAreReported(env: Env, s: Snapshot, checksums: bool)
    requires Consistent(env, s)
    ensures forall issue :: IsIssue(env, s, checksums, issue) <==> IsAbandonedFile(s, issue)
  {
    forall id, issue | id in s.rows
      ensures !IsRowIssue(env, s.disk.files, id, s.rows[id], checksums, issue)
    {
      assert Settled(env, s.disk, s.rows[id]);
    }
  }

  /** The same over every run from a consistent state: nothing but those files is ever reported. */
  lemma ReportsOverRuns(env: Env, s: Snapshot, run: seq<Step>, checksums: bool)
    requires Consistent(env, s) && FreshRun(env, s, run)
    ensures var t := Run(env, s, run);
            forall issue :: IsIssue(env, t, checksums, issue) <==> IsAbandonedFile(t, issue)
  {
    ConsistencyOverRuns(env, s, run);
    OnlyAbandonedFilesAreReported(env, Run(env, s, run), checksums);
  }

  /** Cleaning the orphans of a consistent state makes it healthy, and touches no row and no file
      that belongs to one. */
  lemma CleaningOrphansHeals(env: Env, s: Snapshot)
    requires Consistent(env, s)
    ensures Healthy(env, OrphansCleaned(s)) && OrphansCleaned(s).rows == s.rows
    ensures forall id :: id in s.rows ==>
              var place := Stored(Locate(s.disk.files, s.rows[id].path).value, s.rows[id].path);
              place in OrphansCleaned(s).disk.files && OrphansCleaned(s).disk.files[place] == s.disk.files[place]
  {
    var t := OrphansCleaned(s);
    OrphanCleanupKeepsConsistency(env, s);
    OnlyAbandonedFilesAreReported(env, t, true);
    HealthyExactlyWhenNoIssue(env, t);
    forall id | id in s.rows
      ensures Locate(s.disk.files, s.rows[id].path).Some? && Referenced(s.rows, s.rows[id].path)
    {
      assert Settled(env, s.disk, s.rows[id]);
    }
  }
}
