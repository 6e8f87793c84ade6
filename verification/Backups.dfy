/** Creating, listing and retaining backups (`app/services/backup_service.py`). */
module Backups {
  import opened Prelude
  import opened BackupPaths
  import opened Manifest
  import opened BackupTree
  import opened BackupVerify
  import opened BackupContents
  import opened Retention

  // ---- Rankings of the valid backups ----

  ghost predicate IsValid(codec: Codec, dir: Storage, id: string, report: BackupReport) {
    exists m :: Accepts(codec, dir, id, m) && report == ReportOf(m)
  }

  /** The valid backups among some directories, each once, newest first. */
  ghost predicate RanksAmong(codec: Codec, backups: map<string, Storage>, ids: set<string>, ranking: seq<BackupReport>) {
    && NewestFirst(ranking)
    && DistinctIds(ranking)
    && (forall i :: 0 <= i < |ranking| ==>
          var id := ranking[i].backupId;
          id in ids && id in backups && IsValid(codec, backups[id], id, ranking[i]))
    && (forall id, report :: id in ids && id in backups && IsValid(codec, backups[id], id, report) ==> report in ranking)
  }

  /** _recognized_backup_directories */
  function Recognised(backups: map<string, Storage>): set<string> {
    set id | id in backups && IsBackupId(id)
  }

  ghost predicate Ranks(codec: Codec, backups: map<string, Storage>, ranking: seq<BackupReport>) {
    RanksAmong(codec, backups, Recognised(backups), ranking)
  }

  /** A directory has at most one valid report, under its own name. */
  lemma ReportIsUnique(codec: Codec, dir: Storage, id: string, a: BackupReport, b: BackupReport)
    requires IsValid(codec, dir, id, a) && IsValid(codec, dir, id, b)
    ensures a == b && a.backupId == id
  {
    hide SafeBackupId, Parses, EntryMatches, Ascii;
    var m :| Accepts(codec, dir, id, m) && a == ReportOf(m);
    var n :| Accepts(codec, dir, id, n) && b == ReportOf(n);
    ParsingIsFunctional(codec.rt, codec.decode(dir[MANIFEST]).result, m, n);
  }

  /** A directory is valid only under an identifier without surrounding white space. */
  lemma PaddedIdentifiersAreRefused(codec: Codec, dir: Storage, id: string, report: BackupReport)
    requires IsValid(codec, dir, id, report)
    ensures SafeBackupId(id) == Some(id)
  {
    hide IsBackupId, RStrip, LStrip, IsParsedFrom, EntryMatches, Ascii;
    var m :| Accepts(codec, dir, id, m) && report == ReportOf(m);
    var raw := codec.decode(dir[MANIFEST]).result;
    assert ParseHeader(codec.rt, raw.fields, m.entries) == Some(m);
    BackupIdIsStripped(id);
  }

  lemma RankOneMore(codec: Codec, backups: map<string, Storage>, ids: set<string>, ranking: seq<BackupReport>,
                    id: string, report: BackupReport)
    requires RanksAmong(codec, backups, ids, ranking) && id !in ids && id in backups
    requires IsValid(codec, backups[id], id, report)
    ensures RanksAmong(codec, backups, ids + {id}, Inserted(ranking, report))
  {
    hide IsValid, NewestFirst, DistinctIds, Inserted;
    var more := Inserted(ranking, report);
    ReportIsUnique(codec, backups[id], id, report, report);
    InsertionSorts(ranking, report);
    InsertionKeepsIdsDistinct(ranking, report);
    forall i | 0 <= i < |more|
      ensures more[i] in ranking || more[i] == report
    {
      InsertionAdds(ranking, report, more[i]);
      assert more[i] in more;
    }
    forall other, r | other in ids + {id} && other in backups && IsValid(codec, backups[other], other, r)
      ensures r in more
    {
      InsertionAdds(ranking, report, r);
      if other == id {
        ReportIsUnique(codec, backups[id], id, r, report);
      }
    }
  }

  lemma RankNothingMore(codec: Codec, backups: map<string, Storage>, ids: set<string>, ranking: seq<BackupReport>, id: string)
    requires RanksAmong(codec, backups, ids, ranking) && id in backups
    requires forall report :: !IsValid(codec, backups[id], id, report)
    ensures RanksAmong(codec, backups, ids + {id}, ranking)
  {
    hide IsValid, NewestFirst, DistinctIds;
  }

  lemma StillStrict(first: seq<BackupReport>, second: seq<BackupReport>)
    requires StrictlyNewestFirst(first) && NewestFirst(second) && DistinctIds(second)
    requires forall r :: r in second ==> r in first
    ensures StrictlyNewestFirst(second)
  {
    forall i, j | 0 <= i < j < |second|
      ensures second[i].createdAt > second[j].createdAt
    {
      assert second[i] in second && second[j] in second;
      var p :| 0 <= p < |first| && first[p] == second[i];
      var q :| 0 <= q < |first| && first[q] == second[j];
      assert p != q;
    }
  }

  // ---- Totals ----

  lemma {:induction false} TotalWithout(entries: seq<BackupEntry>, i: nat)
    requires i < |entries|
    ensures TotalBytes(entries) == entries[i].sizeBytes + TotalBytes(entries[..i] + entries[i + 1..])
  {
    if i == 0 {
      assert entries[..0] + entries[1..] == entries[1..];
    } else {
      TotalWithout(entries[1..], i - 1);
      var rest := entries[..i] + entries[i + 1..];
      assert rest[1..] == entries[1..][..i - 1] + entries[1..][i..];
    }
  }

  /** Two lists with the same elements still have them when one occurrence is taken out of each. */
  lemma FirstTakenOut<T>(a: seq<T>, b: seq<T>) returns (i: nat)
    requires multiset(a) == multiset(b) && a != []
    ensures i < |b| && b[i] == a[0] && multiset(a[1..]) == multiset(b[..i] + b[i + 1..])
  {
    assert a[0] in multiset(b);
    i :| 0 <= i < |b| && b[i] == a[0];
    FirstOut(a);
    TakenOut(b, i);
  }

  lemma FirstOut<T>(s: seq<T>)
    requires s != []
    ensures multiset(s[1..]) == multiset(s) - multiset{s[0]}
  {
    assert s == [s[0]] + s[1..];
  }

  lemma TakenOut<T>(s: seq<T>, i: nat)
    requires i < |s|
    ensures multiset(s[..i] + s[i + 1..]) == multiset(s) - multiset{s[i]}
  {
    assert s == s[..i] + ([s[i]] + s[i + 1..]);
  }

  lemma SameLength<T>(a: seq<T>, b: seq<T>)
    requires multiset(a) == multiset(b)
    ensures |a| == |b|
  {
    assert |multiset(a)| == |a| && |multiset(b)| == |b|;
  }

  /** Sorting the entries does not change the total. */
  lemma {:induction false} TotalOfPermutation(a: seq<BackupEntry>, b: seq<BackupEntry>)
    requires multiset(a) == multiset(b)
    ensures |a| == |b| && TotalBytes(a) == TotalBytes(b)
  {
    SameLength(a, b);
    if a != [] {
      var i := FirstTakenOut(a, b);
      TotalOfPermutation(a[1..], b[..i] + b[i + 1..]);
      TotalWithout(b, i);
    }
  }

  lemma {:induction false} TotalOfConcat(a: seq<BackupEntry>, b: seq<BackupEntry>)
    ensures TotalBytes(a + b) == TotalBytes(a) + TotalBytes(b)
  {
    if a == [] {
      assert a + b == b;
    } else {
      assert (a + b)[1..] == a[1..] + b;
      TotalOfConcat(a[1..], b);
    }
  }

  // ---- Operations ----

  /** The live installation, as a backup reads it: `snapshot` is what SQLite's backup interface would
      copy, absent without a database file, and `config` lists the configuration templates. */
  datatype Live = Live(databaseBytes: nat, snapshot: Option<Bytes>, root: Option<Tree>, config: seq<(RelPath, Bytes)>)

  function ConfigFiles(config: seq<(RelPath, Bytes)>): Storage {
    if config == [] then map[] else ConfigFiles(config[..|config| - 1])[config[|config| - 1].0 := config[|config| - 1].1]
  }

  ghost predicate IsLive(codec: Codec, live: Live) {
    && (live.root.Some? ==> IsFileSystem(live.root.value) && RealPaths(codec, FilesOf(live.root.value, [])))
    && (forall i, j :: 0 <= i < j < |live.config| ==> live.config[i].0 != live.config[j].0)
    && RealPaths(codec, ConfigFiles(live.config))
  }

  /** Which steps of a creation meet an I/O error. */
  datatype Faults = Faults(populating: bool, writing: bool, publishing: bool)

  /** What rmtree does to a backup directory: remove it, or fail with some of it left. */
  datatype Removal = Removed | Stuck(left: Storage)

  datatype RetentionReport = RetentionReport(discovered: nat, eligible: seq<string>, deleted: seq<string>, errors: nat)

  datatype CreationReport = CreationReport(backupId: string, fileCount: nat, totalBytes: nat, retentionDeleted: nat)

  /** The backup root after retention: eligible directories are gone, or what rmtree left of them. */
  function AfterRetention(before: map<string, Storage>, eligible: seq<string>, removal: string -> Removal): map<string, Storage> {
    map id | id in before && (id in eligible ==> removal(id).Stuck?) :: if id in eligible then removal(id).left else before[id]
  }

  /** Enough space, a readable sound database of a valid revision, a storage root, and no I/O error. */
  predicate CanPopulate(codec: Codec, live: Live, needed: nat, available: nat, reserve: nat, populating: bool) {
    && needed + reserve <= available
    && live.snapshot.Some? && codec.integrity(live.snapshot.value)
    && codec.revision(live.snapshot.value).Some? && IsRevision(codec.revision(live.snapshot.value).value)
    && live.root.Some?
    && !populating
  }

  /** The files a backup of the live installation should hold. */
  ghost function Contents(live: Live, temporary: RelPath): Storage
    requires live.snapshot.Some? && live.root.Some?
  {
    BackupFiles(live.snapshot.value, Retained(FilesOf(live.root.value, []), temporary, false), ConfigFiles(live.config))
  }

  /** The space a backup is estimated to need. */
  ghost function Needed(live: Live, temporary: RelPath): nat {
    live.databaseBytes +
    match live.root
    case None => 0
    case Some(root) =>
      var files := FilesOf(root, []);
      Volume(Retained(files, temporary, false)) + if temporary in files then |files[temporary]| else 0
  }

  /** The manifest drawn up for a populated backup. */
  ghost predicate IsDraft(codec: Codec, live: Live, temporary: RelPath, id: string, now: int, version: string, m: BackupManifest) {
    && live.snapshot.Some? && live.root.Some?
    && m.backupId == id && m.createdAt == now && m.appVersion == version
    && codec.revision(live.snapshot.value) == Some(m.databaseRevision)
    && Declares(codec.hash, m.entries, Contents(live, temporary))
    && TotalBytes(m.entries) == |live.snapshot.value| + Volume(Retained(FilesOf(live.root.value, []), temporary, false))
                                + Volume(ConfigFiles(live.config))
  }

  /** What writing and verifying a backup asks of it: no file name holds a backslash, all are UTF-8,
      and the manifest is not too large. */
  ghost predicate Fits(codec: Codec, live: Live, temporary: RelPath, m: BackupManifest)
    requires live.snapshot.Some? && live.root.Some?
  {
    && AllSafe(Retained(FilesOf(live.root.value, []), temporary, false)) && AllSafe(ConfigFiles(live.config))
    && Utf8Names(codec, Contents(live, temporary))
    && Payload(codec, m).Some? && |Payload(codec, m).value| <= MAX_MANIFEST_BYTES
  }

  /** The directory of a backup in the backup root: what was written for its draft, which verification
      accepts. */
  ghost predicate IsPublished(codec: Codec, live: Live, temporary: RelPath, m: BackupManifest, id: string, dir: Storage) {
    && live.snapshot.Some? && live.root.Some?
    && (forall b :: IsDigest(codec.hash(b))) && Payload(codec, m).Some?
    && dir == Written(codec, Contents(live, temporary), m)
    && Accepts(codec, dir, id, m) && !Escapes(codec, dir, id)
  }

  /** When a backup appears in the backup root. */
  ghost predicate Publishes(codec: Codec, live: Live, temporary: RelPath, draft: Option<BackupManifest>, taken: bool, faults: Faults) {
    draft.Some? && live.snapshot.Some? && live.root.Some? && Fits(codec, live, temporary, draft.value) && !taken && !faults.writing && !faults.publishing
  }

  /** When a backup appears, from the installation and the faults alone: there is space for the
      estimate and the reserve, the database can be read, is sound and of a valid revision, there is a
      storage root, no step fails, the identifier is free, no name of a file holds NUL or a backslash
      or is not UTF-8, and the manifest is within its limit. */
  lemma AppearsExactlyWhen(codec: Codec, live: Live, temporary: RelPath, draft: Option<BackupManifest>, taken: bool, faults: Faults,
                           available: nat, reserve: nat)
    requires draft.Some? <==> CanPopulate(codec, live, Needed(live, temporary), available, reserve, faults.populating)
    ensures Publishes(codec, live, temporary, draft, taken, faults)
            <==> && live.snapshot.Some? && live.root.Some?
                 && Needed(live, temporary) + reserve <= available
                 && codec.integrity(live.snapshot.value)
                 && codec.revision(live.snapshot.value).Some? && IsRevision(codec.revision(live.snapshot.value).value)
                 && !faults.populating && !faults.writing && !faults.publishing && !taken
                 && (draft.Some? ==> Fits(codec, live, temporary, draft.value))
  {
    hide Fits, Needed, IsRevision;
  }

  /** The estimate is the database and what a walk counts; nothing copied but the templates and the
      manifest is left out of it. */
  lemma NeededIsTheEstimate(live: Live, temporary: RelPath)
    requires live.root.Some?
    ensures Needed(live, temporary) == live.databaseBytes + Volume(Retained(FilesOf(live.root.value, []), temporary, true))
  {
    EstimateAgainstCopy(FilesOf(live.root.value, []), temporary);
  }

  lemma {:induction false} ConfigPrefix(config: seq<(RelPath, Bytes)>, n: nat)
    requires n < |config|
    ensures ConfigFiles(config[..n + 1]) == ConfigFiles(config[..n])[config[n].0 := config[n].1]
  {
    assert config[..n + 1][..n] == config[..n];
  }

  lemma {:induction false} ConfigKeys(config: seq<(RelPath, Bytes)>)
    ensures forall path :: path in ConfigFiles(config) <==> exists i :: 0 <= i < |config| && config[i].0 == path
  {
    if config != [] {
      var init, last := config[..|config| - 1], config[|config| - 1];
      ConfigKeys(init);
      forall path | path in ConfigFiles(init)
        ensures exists i :: 0 <= i < |config| && config[i].0 == path
      {
        var i :| 0 <= i < |init| && init[i].0 == path;
        assert config[i].0 == path;
      }
      forall i | 0 <= i < |config| - 1
        ensures config[i].0 in ConfigFiles(init)
      {
        assert init[i].0 == config[i].0;
      }
    }
  }

  /** _copy_config_templates */
  method CopyConfigTemplates(hash: Hash, config: seq<(RelPath, Bytes)>) returns (copied: Storage, entries: seq<BackupEntry>, ghost paths: seq<RelPath>)
    requires forall i, j :: 0 <= i < j < |config| ==> config[i].0 != config[j].0
    ensures copied == ConfigFiles(config)
    ensures Describes(hash, "config", entries, paths, copied) && TotalBytes(entries) == Volume(copied)
  {
    hide Describes, Volume, TotalBytes, EntryFor;
    copied, entries, paths := map[], [], [];
    EmptyDescribes(hash, "config");
    for i := 0 to |config|
      invariant copied == ConfigFiles(config[..i])
      invariant Describes(hash, "config", entries, paths, copied) && TotalBytes(entries) == Volume(copied)
    {
      var (path, data) := config[i];
      ConfigPrefix(config, i);
      ConfigKeys(config[..i]);
      OneMoreFile(copied, path, data);
      TotalOfOneMore(entries, EntryFor(hash, "config", path, data));
      EntrySize(hash, "config", path, data);
      copied, entries, paths := AddFile(hash, "config", copied, entries, paths, path, data);
    }
    assert config[..|config|] == config;
  }

  lemma EmptyDescribes(hash: Hash, top: string)
    ensures Describes(hash, top, [], [], map[]) && TotalBytes([]) == Volume(map[])
  {
  }

  lemma EntrySize(hash: Hash, top: string, path: RelPath, data: Bytes)
    ensures EntryFor(hash, top, path, data).sizeBytes == |data|
  {
  }

  /** _populate_backup */
  method PopulateBackup(codec: Codec, database: Bytes, root: Tree, config: seq<(RelPath, Bytes)>, temporary: RelPath)
    returns (files: Storage, entries: seq<BackupEntry>)
    requires IsFileSystem(root) && RealPaths(codec, FilesOf(root, [])) && temporary != []
    requires forall i, j :: 0 <= i < j < |config| ==> config[i].0 != config[j].0
    requires Sound(codec) && RealPaths(codec, ConfigFiles(config))
    ensures files == BackupFiles(database, Retained(FilesOf(root, []), temporary, false), ConfigFiles(config))
    ensures Declares(codec.hash, entries, files)
    ensures TotalBytes(entries) == |database| + Volume(Retained(FilesOf(root, []), temporary, false)) + Volume(ConfigFiles(config))
  {
    hide Describes, Volume, TotalBytes, BackupFiles, IsFileSystem, FilesOf, Declares, IsPath;
    var stored, storedEntries, storedPaths := CopyStorage(codec.hash, root, temporary);
    var copied, configEntries, configPaths := CopyConfigTemplates(codec.hash, config);
    files := BackupFiles(database, stored, copied);
    entries := [DatabaseEntry(codec.hash, database)] + storedEntries + configEntries;
    PopulatedDeclares(codec, database, stored, copied, storedEntries, storedPaths, configEntries, configPaths);
    TotalOfConcat([DatabaseEntry(codec.hash, database)] + storedEntries, configEntries);
    TotalOfConcat([DatabaseEntry(codec.hash, database)], storedEntries);
    TotalOfOne(DatabaseEntry(codec.hash, database));
  }

  lemma TotalOfOne(entry: BackupEntry)
    ensures TotalBytes([entry]) == entry.sizeBytes
  {
  }

  /** Verification of a backup just written ends in no unexpected error, and succeeds exactly when
      the backup fits; it cannot be written at all exactly when some name is not UTF-8. */
  lemma DraftIsAccepted(codec: Codec, live: Live, temporary: RelPath, id: string, now: int, version: string, m: BackupManifest)
    requires Sound(codec) && IsLive(codec, live) && IsDraft(codec, live, temporary, id, now, version, m)
    requires IsBackupId(id) && |version| <= 64 && IsAscii(version) && IsRevision(m.databaseRevision)
    requires codec.integrity(live.snapshot.value)
    ensures Payload(codec, m).Some? <==> Utf8Names(codec, Contents(live, temporary))
    ensures Payload(codec, m).Some? ==>
              var dir := Written(codec, Contents(live, temporary), m);
              && ((exists n :: Accepts(codec, dir, id, n)) <==> Fits(codec, live, temporary, m))
              && (Fits(codec, live, temporary, m) ==> Accepts(codec, dir, id, m))
              && !Escapes(codec, dir, id)
  {
    hide Accepts, Written, Declares, AllSafe, IsRevision, IsBackupId, ToJson, BackupFiles, FilesOf, Escapes, IsPath, Utf8Names, PrintsBack;
    var storage, config := Retained(FilesOf(live.root.value, []), temporary, false), ConfigFiles(live.config);
    var files := Contents(live, temporary);
    PopulatedNames(codec, live.snapshot.value, storage, config);
    PopulatedPlaces(live.snapshot.value, storage, config);
    DeclaredDigests(codec, files, m.entries);
    PrintableExactlyWhen(codec, files, m);
    if Payload(codec, m).Some? {
      WrittenBackupIsAcceptedExactlyWhen(codec, files, m);
      RealIsFindable(codec, files);
      if Fits(codec, live, temporary, m) {
        WrittenBackupIsAccepted(codec, files, m);
      }
    }
  }

  class BackupService {
    const codec: Codec
    const keep: nat
    const reserve: nat
    var backups: map<string, Storage>

    /** verify_backup. The identifier selects a directory with surrounding white space removed, but the
        manifest is compared with the identifier as it was given. */
    method VerifyBackup(id: string) returns (report: Option<BackupReport>)
      ensures report.Some? ==>
                && SafeBackupId(id).Some? && SafeBackupId(id).value in backups
                && IsValid(codec, backups[SafeBackupId(id).value], id, report.value)
      ensures report.None? && SafeBackupId(id).Some? && SafeBackupId(id).value in backups ==>
                forall other :: !IsValid(codec, backups[SafeBackupId(id).value], id, other)
    {
      hide Accepts, IsValid, SafeBackupId, Escapes;
      var selected := SafeBackupId(id);
      if selected == None || selected.value !in backups {
        return None;
      }
      var dir := backups[selected.value];
      var verdict := VerifyDirectory(codec, dir, id);
      match verdict {
        case Accepted(r) =>
          AcceptedIsValid(codec, dir, id, r);
          report := Some(r);
        case Refused =>
          RefusedIsInvalid(codec, dir, id);
          report := None;
        case Escaped =>
          RefusedIsInvalid(codec, dir, id);
          report := None;
      }
    }

    /** list_backups. None: verification of some directory ends in an error that the listing does not
        expect, so that the listing itself raises. */
    method ListBackups() returns (reports: Option<seq<BackupReport>>)
      ensures reports.Some? ==> Ranks(codec, backups, reports.value)
      ensures reports.None? <==> exists id :: id in Recognised(backups) && Escapes(codec, backups[id], id)
    {
      hide IsValid, Accepts, Inserted, RanksAmong, IsBackupId, Escapes;
      var ranking: seq<BackupReport> := [];
      var remaining := Recognised(backups);
      NothingRanked(codec, backups);
      while remaining != {}
        invariant remaining <= Recognised(backups)
        invariant RanksAmong(codec, backups, Recognised(backups) - remaining, ranking)
        invariant forall id :: id in Recognised(backups) - remaining ==> !Escapes(codec, backups[id], id)
        decreases |remaining|
      {
        var id :| id in remaining;
        ghost var done := Recognised(backups) - remaining;
        var verdict := VerifyDirectory(codec, backups[id], id);
        match verdict {
          case Accepted(report) =>
            AcceptedIsValid(codec, backups[id], id, report);
            RankOneMore(codec, backups, done, ranking, id, report);
            ranking := Inserted(ranking, report);
          case Refused =>
            RefusedIsInvalid(codec, backups[id], id);
            RankNothingMore(codec, backups, done, ranking, id);
          case Escaped =>
            return None;
        }
        remaining := remaining - {id};
        assert Recognised(backups) - remaining == done + {id};
      }
      assert Recognised(backups) - {} == Recognised(backups);
      reports := Some(ranking);
    }

    /** apply_retention. */
    method ApplyRetention(dryRun: bool, protected: set<string>, removal: string -> Removal)
      returns (report: Option<RetentionReport>, ghost ranking: seq<BackupReport>)
      modifies this
      ensures report.None? ==> backups == old(backups)
      ensures report.None? <==> exists id :: id in Recognised(old(backups)) && Escapes(codec, old(backups)[id], id)
      ensures report.Some? ==>
                && Ranks(codec, old(backups), ranking)
                && report.value.discovered == |ranking|
                && report.value.eligible == Eligible(ranking, keep, protected)
      ensures report.Some? && dryRun ==>
                backups == old(backups) && report.value.deleted == [] && report.value.errors == 0
      ensures report.Some? && !dryRun ==>
                && backups == AfterRetention(old(backups), report.value.eligible, removal)
                && |report.value.deleted| + report.value.errors == |report.value.eligible|
                && forall id :: id in report.value.deleted <==> id in report.value.eligible && removal(id).Removed?
    {
      hide Escapes, Eligible, Ranks, AfterRetention;
      var reports := ListBackups();
      if reports == None {
        return None, [];
      }
      ranking := reports.value;
      var eligible := Eligible(reports.value, keep, protected);
      var deleted: seq<string> := [];
      var errors := 0;
      if !dryRun {
        NothingRemoved(backups, removal);
        for i := 0 to |eligible|
          invariant backups == AfterRetention(old(backups), eligible[..i], removal)
          invariant |deleted| + errors == i
          invariant forall id :: id in deleted <==> id in eligible[..i] && removal(id).Removed?
        {
          var id := eligible[i];
          assert eligible[..i + 1] == eligible[..i] + [id];
          EligibleAreListed(codec, old(backups), ranking, keep, protected);
          OneMoreRemoved(old(backups), eligible[..i], id, removal);
          match removal(id) {
            case Removed =>
              backups := backups - {id};
              deleted := deleted + [id];
            case Stuck(left) =>
              backups := backups[id := left];
              errors := errors + 1;
          }
        }
        assert eligible[..|eligible|] == eligible;
      }
      report := Some(RetentionReport(|reports.value|, eligible, deleted, errors));
    }

    /** The steps of create_backup before the manifest is written: None when one of them raises. */
    method DrawUp(live: Live, temporary: RelPath, id: string, now: int, version: string, available: nat, populating: bool)
      returns (files: Storage, draft: Option<BackupManifest>)
      requires Sound(codec) && IsLive(codec, live) && temporary != []
      ensures draft.Some? <==> CanPopulate(codec, live, Needed(live, temporary), available, reserve, populating)
      ensures draft.Some? ==>
                && IsDraft(codec, live, temporary, id, now, version, draft.value)
                && files == Contents(live, temporary)
    {
      hide IsFileSystem, FilesOf, Retained, Volume, Declares, BackupFiles, IsRevision, TotalBytes, ConfigFiles, IsPath;
      files, draft := map[], None;
      var needed := EstimateSourceBytes(live.databaseBytes, live.root, temporary);
      if needed > available || available - needed < reserve {
        return;
      }
      if populating || live.snapshot == None || !codec.integrity(live.snapshot.value) || live.root == None {
        return;
      }
      var entries;
      files, entries := PopulateBackup(codec, live.snapshot.value, live.root.value, live.config, temporary);
      var revision := codec.revision(live.snapshot.value);
      if revision == None || !IsRevision(revision.value) {
        return;
      }
      var sorted := codec.arrange(entries);
      ReorderedEntriesDeclare(codec.hash, entries, sorted, files);
      TotalOfPermutation(sorted, entries);
      draft := Some(BackupManifest(id, now, version, revision.value, sorted));
    }

    /** _write_manifest and the verification that follows it: None when one of them raises. */
    method WriteAndVerify(live: Live, temporary: RelPath, files: Storage, id: string, now: int, version: string,
                          m: BackupManifest, writing: bool) returns (dir: Option<Storage>)
      requires Sound(codec) && IsLive(codec, live) && IsDraft(codec, live, temporary, id, now, version, m)
      requires IsBackupId(id) && |version| <= 64 && IsAscii(version) && IsRevision(m.databaseRevision)
      requires codec.integrity(live.snapshot.value) && files == Contents(live, temporary)
      ensures dir.Some? <==> Fits(codec, live, temporary, m) && !writing
      ensures dir.Some? ==> IsPublished(codec, live, temporary, m, id, dir.value)
    {
      hide Accepts, Written, Contents, Declares, Fits, IsRevision, IsBackupId, Escapes, IsLive, Sound;
      DraftIsAccepted(codec, live, temporary, id, now, version, m);
      FitsIsPrintable(codec, live, temporary, m);
      if writing || Payload(codec, m) == None {
        return None;
      }
      SoundHashes(codec);
      var written := Written(codec, files, m);
      var verdict := VerifyDirectory(codec, written, id);
      dir := if verdict.Accepted? then Some(written) else None;
    }

    /** create_backup. `ranking` is the listing that retention used. */
    method CreateBackup(live: Live, temporary: RelPath, id: string, now: int, version: string, available: nat,
                        faults: Faults, retain: bool, removal: string -> Removal)
      returns (result: Option<CreationReport>, ghost draft: Option<BackupManifest>, ghost ranking: seq<BackupReport>)
      requires Sound(codec) && IsLive(codec, live) && temporary != [] && IsBackupId(id) && |version| <= 64 && IsAscii(version)
      modifies this
      ensures draft.Some? <==> CanPopulate(codec, live, Needed(live, temporary), available, reserve, faults.populating)
      ensures draft.Some? ==> IsDraft(codec, live, temporary, id, now, version, draft.value)
      ensures !Publishes(codec, live, temporary, draft, id in old(backups), faults) ==> result.None? && backups == old(backups)
      ensures Publishes(codec, live, temporary, draft, id in old(backups), faults) ==>
                id in backups && IsPublished(codec, live, temporary, draft.value, id, backups[id])
      ensures id in backups && id !in old(backups)
              <==> && live.snapshot.Some? && live.root.Some?
                   && Needed(live, temporary) + reserve <= available
                   && codec.integrity(live.snapshot.value)
                   && codec.revision(live.snapshot.value).Some? && IsRevision(codec.revision(live.snapshot.value).value)
                   && !faults.populating && !faults.writing && !faults.publishing && id !in old(backups)
                   && (draft.Some? ==> Fits(codec, live, temporary, draft.value))
      ensures Publishes(codec, live, temporary, draft, id in old(backups), faults) ==>
                var published := old(backups)[id := backups[id]];
                && (result.None? <==> retain && exists other :: other in Recognised(published) && Escapes(codec, published[other], other))
                && (!retain || result.None? ==> backups == published)
                && (retain && result.Some? ==>
                      && Ranks(codec, published, ranking)
                      && backups == AfterRetention(published, Eligible(ranking, keep, {id}), removal))
                && (result.Some? ==>
                      && result.value.backupId == id
                      && result.value.fileCount == |draft.value.entries| && result.value.totalBytes == TotalBytes(draft.value.entries))
    {
      hide Accepts, Written, Contents, Declares, Fits, IsRevision, IsBackupId, Ranks, AfterRetention, Escapes,
        Eligible, TotalBytes, Recognised, IsLive, Sound, IsPublished;
      result, ranking := None, [];
      var files, drawn := DrawUp(live, temporary, id, now, version, available, faults.populating);
      draft := drawn;
      AppearsExactlyWhen(codec, live, temporary, draft, id in backups, faults, available, reserve);
      if drawn == None {
        return;
      }
      var m := drawn.value;
      var written := WriteAndVerify(live, temporary, files, id, now, version, m, faults.writing);
      if written == None || faults.publishing || id in backups {
        return;
      }
      var dir := written.value;
      backups := backups[id := dir];
      ghost var published := backups;
      var deleted := 0;
      if retain {
        var report;
        report, ranking := ApplyRetention(false, {id}, removal);
        if report == None {
          return;
        }
        ProtectedSurvives(codec, published, ranking, keep, id, removal);
        deleted := |report.value.deleted|;
      }
      result := Some(CreationReport(id, |m.entries|, TotalBytes(m.entries), deleted));
    }
  }

  /** Retention spares a protected backup. */
  lemma ProtectedSurvives(codec: Codec, published: map<string, Storage>, ranking: seq<BackupReport>, keep: nat, id: string,
                          removal: string -> Removal)
    requires id in published
    ensures var after := AfterRetention(published, Eligible(ranking, keep, {id}), removal);
            id in after && after[id] == published[id]
  {
    hide Eligible;
    EligibleExactly(ranking, keep, {id}, id);
  }

  /** A second pass. `before` is ranked by `first`, whose creation times are distinct; retention then
      deleted what was eligible, without errors. In what is left, ranked by `second`, nothing is
      eligible any more. */
  lemma SecondPass(codec: Codec, before: map<string, Storage>, first: seq<BackupReport>, removal: string -> Removal,
                   second: seq<BackupReport>, keep: nat, protected: set<string>)
    requires Ranks(codec, before, first) && StrictlyNewestFirst(first)
    requires forall id :: id in Eligible(first, keep, protected) ==> removal(id) == Removed
    requires Ranks(codec, AfterRetention(before, Eligible(first, keep, protected), removal), second)
    ensures Eligible(second, keep, protected) == []
  {
    hide IsValid, Eligible, StrictlyNewestFirst, NewestFirst, IsBackupId;
    var gone := Eligible(first, keep, protected);
    var after := AfterRetention(before, gone, removal);
    forall r
      ensures r in second <==> r in first && r.backupId !in gone
    {
      if r in second {
        var i :| 0 <= i < |second| && second[i] == r;
        assert r in first;
      }
      if r in first && r.backupId !in gone {
        var i :| 0 <= i < |first| && first[i] == r;
        assert r.backupId in after && after[r.backupId] == before[r.backupId];
      }
    }
    StillStrict(first, second);
    SecondPassDeletesNothing(first, second, keep, protected);
  }

  /** Whatever rmtree does, retention touches only valid unprotected backups that are no newer than
      each of the newest `keep`, and never one of those. */
  lemma OnlyOlderValidBackupsGo(codec: Codec, before: map<string, Storage>, ranking: seq<BackupReport>, keep: nat,
                                protected: set<string>, removal: string -> Removal, id: string)
    requires Ranks(codec, before, ranking) && id in before
    requires var after := AfterRetention(before, Eligible(ranking, keep, protected), removal);
             id !in after || after[id] != before[id]
    ensures id !in protected && keep < |ranking|
    ensures exists report :: IsValid(codec, before[id], id, report) && NoNewerThan(ranking, keep, report)
  {
    hide IsValid, Eligible, IsBackupId;
    EligibleExactly(ranking, keep, protected, id);
    var j :| keep <= j < |ranking| && ranking[j].backupId == id;
    assert IsValid(codec, before[id], id, ranking[j]) && NoNewerThan(ranking, keep, ranking[j]);
  }

  /** Not one of the newest `keep`, nor newer than one of them. */
  ghost predicate NoNewerThan(ranking: seq<BackupReport>, keep: nat, report: BackupReport) {
    forall i :: 0 <= i < |ranking| && i < keep ==>
      ranking[i].createdAt >= report.createdAt && ranking[i].backupId != report.backupId
  }

  lemma FitsIsPrintable(codec: Codec, live: Live, temporary: RelPath, m: BackupManifest)
    requires live.snapshot.Some? && live.root.Some?
    ensures Fits(codec, live, temporary, m) ==> Payload(codec, m).Some?
  {
  }

  lemma SoundHashes(codec: Codec)
    requires Sound(codec)
    ensures forall b :: IsDigest(codec.hash(b))
  {
  }

  lemma NothingRemoved(before: map<string, Storage>, removal: string -> Removal)
    ensures AfterRetention(before, [], removal) == before
  {
  }

  lemma OneMoreRemoved(before: map<string, Storage>, done: seq<string>, id: string, removal: string -> Removal)
    requires id in before
    ensures AfterRetention(before, done + [id], removal)
            == match removal(id)
               case Removed => AfterRetention(before, done, removal) - {id}
               case Stuck(left) => AfterRetention(before, done, removal)[id := left]
  {
  }

  lemma NothingRanked(codec: Codec, backups: map<string, Storage>)
    ensures RanksAmong(codec, backups, {}, []) && Recognised(backups) - Recognised(backups) == {}
  {
  }

  lemma AcceptedIsValid(codec: Codec, dir: Storage, id: string, report: BackupReport)
    requires exists m :: Accepts(codec, dir, id, m) && report == ReportOf(m)
    ensures IsValid(codec, dir, id, report)
  {
    hide Accepts;
  }

  lemma RefusedIsInvalid(codec: Codec, dir: Storage, id: string)
    requires forall m :: !Accepts(codec, dir, id, m)
    ensures forall report :: !IsValid(codec, dir, id, report)
  {
    hide Accepts;
  }

  lemma EligibleAreListed(codec: Codec, backups: map<string, Storage>, ranking: seq<BackupReport>, keep: nat, protected: set<string>)
    requires Ranks(codec, backups, ranking)
    ensures forall id :: id in Eligible(ranking, keep, protected) ==> id in backups && id !in protected
  {
    hide IsValid, Eligible, NewestFirst, DistinctIds, IsBackupId;
    forall id | id in Eligible(ranking, keep, protected)
      ensures id in backups && id !in protected
    {
      EligibleExactly(ranking, keep, protected, id);
    }
  }
}
