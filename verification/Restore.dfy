/** Restoring a backup: staged replacement of storage and database, and its undoing
    (`app/services/backup_service.py`). */
module Restore {
  import opened Prelude
  import opened BackupPaths
  import opened Manifest
  import opened BackupTree
  import opened BackupVerify
  import opened BackupContents
  import opened Backups

  /** The database file and its two sidecars, by suffix: "", "-wal" and "-shm". */
  datatype DatabaseFile = Main | Wal | Shm

  type Database = map<DatabaseFile, Bytes>

  /** What stands at the live paths, at the two staging paths and at the two rollback paths. */
  datatype Places = Places(storage: Option<Storage>, database: Database,
                           storageStage: Option<Storage>, storageRollback: Option<Storage>,
                           databaseStage: Option<Bytes>, databaseRollback: Option<Database>)

  /** What upgrade_database leaves in the place of the database it is given; not `ok` if it raises. */
  datatype Migration = Migration(files: Database, ok: bool)

  /** Which steps meet an I/O error, and what a failed copy leaves behind. `aside` counts the four
      steps of moving the database aside: making the directory, then one for each file. */
  datatype RestoreFaults = RestoreFaults(copyStorage: Option<Storage>, makeTemporary: bool, copyDatabase: Option<Option<Bytes>>,
                                         checkStage: bool, moveStorage: bool, installStorage: bool, aside: Option<nat>,
                                         installDatabase: bool, checkDatabase: bool)

  const NO_FAULTS := RestoreFaults(None, false, None, false, false, false, None, false, false)

  const ASIDE := [Main, Wal, Shm]

  /** mkdir(parents=True) fails where a file stands in the way. */
  predicate Blocked(files: Storage, temporary: RelPath) {
    exists k :: 0 <= k <= |temporary| && temporary[..k] in files
  }

  // ---- What the restore should do ----

  /** Whether the database that would be installed passes migration and its check. */
  predicate Migrates(codec: Codec, migration: Migration, faults: RestoreFaults) {
    migration.ok && Main in migration.files && codec.integrity(migration.files[Main]) && !faults.checkDatabase
  }

  predicate MovesAside(database: Database, faults: RestoreFaults) {
    && faults.aside != Some(0)
    && forall i :: 0 <= i < 3 && ASIDE[i] in database ==> faults.aside != Some(i + 1)
  }

  /** The steps before anything live is touched. */
  predicate Stages(codec: Codec, backup: Storage, temporary: RelPath, faults: RestoreFaults) {
    && faults.copyStorage.None? && ["storage"] !in backup
    && !faults.makeTemporary && !Blocked(StorageOf(backup), temporary)
    && DATABASE_PATH in backup && faults.copyDatabase.None?
    && codec.integrity(backup[DATABASE_PATH]) && !faults.checkStage
  }

  /** None of the steps that a restore takes met an I/O error; storage and files that are not there are
      not moved. */
  predicate NoStepFailed(was: Places, faults: RestoreFaults) {
    && faults.copyStorage.None? && faults.copyDatabase.None? && !faults.makeTemporary && !faults.checkStage
    && !faults.installStorage && !faults.installDatabase && !faults.checkDatabase
    && (faults.moveStorage ==> was.storage == None)
    && faults.aside != Some(0) && (faults.aside == Some(1) ==> Main !in was.database)
    && (faults.aside == Some(2) ==> Wal !in was.database) && (faults.aside == Some(3) ==> Shm !in was.database)
  }

  /** The steps up to the installation of the backup's database. */
  predicate Installs(codec: Codec, was: Places, backup: Storage, temporary: RelPath, faults: RestoreFaults) {
    && Stages(codec, backup, temporary, faults)
    && (was.storage.Some? ==> !faults.moveStorage)
    && !faults.installStorage
    && MovesAside(was.database, faults)
    && !faults.installDatabase
  }

  /** The database can be opened and passes the integrity check. */
  ghost predicate IsSoundDatabase(codec: Codec, database: Database) {
    Main in database && codec.integrity(database[Main])
  }

  lemma MovesAsideExactlyWhen(database: Database, faults: RestoreFaults)
    ensures MovesAside(database, faults) <==>
              && faults.aside != Some(0) && (faults.aside == Some(1) ==> Main !in database)
              && (faults.aside == Some(2) ==> Wal !in database) && (faults.aside == Some(3) ==> Shm !in database)
  {
    assert ASIDE[0] == Main && ASIDE[1] == Wal && ASIDE[2] == Shm;
  }

  /** The restore gets as far as the migration exactly when no step fails, the backup's database is
      sound, and no file stands where the temporary root is to be. The step that checks the migrated
      database comes after. */
  lemma InstallsExactlyWhen(codec: Codec, was: Places, backup: Storage, temporary: RelPath, faults: RestoreFaults)
    ensures (Installs(codec, was, backup, temporary, faults) && !faults.checkDatabase) <==>
              && NoStepFailed(was, faults)
              && DATABASE_PATH in backup && codec.integrity(backup[DATABASE_PATH])
              && ["storage"] !in backup && (forall k :: 0 <= k <= |temporary| ==> temporary[..k] !in StorageOf(backup))
  {
    hide StorageOf, MovesAside;
    MovesAsideExactlyWhen(was.database, faults);
  }

  /** A restore passes exactly when, besides, the migration does not raise and what it leaves is sound. */
  lemma PassesExactlyWhen(codec: Codec, was: Places, backup: Storage, temporary: RelPath, faults: RestoreFaults, migration: Migration)
    ensures (Installs(codec, was, backup, temporary, faults) && Migrates(codec, migration, faults)) <==>
              && NoStepFailed(was, faults)
              && DATABASE_PATH in backup && codec.integrity(backup[DATABASE_PATH])
              && ["storage"] !in backup && (forall k :: 0 <= k <= |temporary| ==> temporary[..k] !in StorageOf(backup))
              && migration.ok && IsSoundDatabase(codec, migration.files)
  {
    hide StorageOf, Installs;
    InstallsExactlyWhen(codec, was, backup, temporary, faults);
  }

  /** The database files after a failed migration has been undone: the old ones, and whatever
      sidecars the migration left that the old database did not have. */
  function Undone(was: Database, left: Database): Database {
    (left - {Main}) + was
  }

  /** Undoing restores the old database files whatever the migration left if and only if the live
      database had both sidecars when the restore began. */
  lemma UndoneExactlyWhen(was: Database)
    ensures (forall left :: Undone(was, left) == was) <==> Wal in was && Shm in was
  {
    if Wal in was && Shm in was {
      forall left
        ensures Undone(was, left) == was
      {
        UndoneAgrees(was, left);
      }
    } else {
      var missing := if Wal in was then Shm else Wal;
      UndoneAgrees(was, map[missing := []]);
    }
  }

  /** After one migration: the old files are exactly restored if and only if it left no sidecar that
      the live database lacked. */
  lemma UndoneAgrees(was: Database, left: Database)
    ensures Undone(was, left) == was <==> forall f :: f in left && f != Main ==> f in was
  {
    assert forall f :: f in Undone(was, left) <==> f in was || (f in left && f != Main);
  }

  /** Nothing of the old state is lost: storage and each database file stand at their own paths or at
      the rollback paths, or else the restore is complete. */
  ghost predicate Recoverable(was: Places, now: Places, restored: Option<(Storage, Database)>) {
    || (restored.Some? && now.storage == Some(restored.value.0) && now.database == restored.value.1)
    || (&& (was.storage.Some? ==> now.storage == was.storage || now.storageRollback == was.storage)
        && HoldsFiles(was.database, now.database, if now.databaseRollback.Some? then now.databaseRollback.value else map[]))
  }

  ghost predicate HoldsFiles(was: Database, live: Database, aside: Database) {
    forall f :: f in was ==> (f in live && live[f] == was[f]) || (f in aside && aside[f] == was[f])
  }

  /** Some files at their own paths, the others aside. */
  ghost predicate Parted(whole: Database, live: Database, aside: Database) {
    live.Keys !! aside.Keys && live + aside == whole
  }

  lemma OneMovedAside(whole: Database, live: Database, aside: Database, f: DatabaseFile)
    requires Parted(whole, live, aside) && f in live
    ensures Parted(whole, live - {f}, aside[f := live[f]])
  {
    assert (live - {f}) + aside[f := live[f]] == live + aside;
  }

  lemma PartedHolds(whole: Database, live: Database, aside: Database)
    requires Parted(whole, live, aside)
    ensures HoldsFiles(whole, live, aside)
    ensures aside == map[] ==> live == whole
    ensures (forall f :: f !in live) ==> live == map[] && aside == whole
  {
    assert (forall f :: f !in live) ==> live == map[];
    assert live == map[] ==> live + aside == aside;
    assert aside == map[] ==> live + aside == live;
  }

  /** Moving a file back changes nothing in what the two sets of files amount to. */
  lemma OneMovedBack(was: Database, live: Database, aside: Database, f: DatabaseFile)
    requires f in aside && HoldsFiles(was, live, aside) && forall g :: g in aside ==> g in was && aside[g] == was[g]
    ensures live[f := aside[f]] + (aside - {f}) == live + aside
    ensures HoldsFiles(was, live[f := aside[f]], aside - {f})
    ensures forall g :: g in aside - {f} ==> g in was && (aside - {f})[g] == was[g]
  {
  }

  ghost predicate AllRecoverable(was: Places, passed: seq<Places>, restored: Option<(Storage, Database)>) {
    forall i :: 0 <= i < |passed| ==> Recoverable(was, passed[i], restored)
  }

  /** Where a failed attempt can stand. */
  ghost predicate Midway(was: Places, now: Places, storageReplaced: bool, databaseReplaced: bool) {
    && (|| (!storageReplaced && now.storage == was.storage && now.storageRollback == None)
        || (!storageReplaced && now.storage == None && now.storageRollback == was.storage)
        || (storageReplaced && now.storage.Some? && now.storageRollback == was.storage))
    && (if databaseReplaced then now.databaseRollback == Some(was.database)
        else if now.databaseRollback == None then now.database == was.database
        else Parted(was.database, now.database, now.databaseRollback.value))
  }

  ghost predicate NothingStaged(now: Places) {
    now.storageStage == None && now.storageRollback == None && now.databaseStage == None && now.databaseRollback == None
  }

  class Installation {
    const codec: Codec
    var disk: Places
    /** The states passed through, for the statement that nothing is lost on the way. */
    ghost var passed: seq<Places>

    constructor (codec: Codec, storage: Option<Storage>, database: Database)
      ensures this.codec == codec && disk == Places(storage, database, None, None, None, None)
    {
      this.codec := codec;
      disk := Places(storage, database, None, None, None, None);
      passed := [];
    }

    /** One step on disk. */
    method Step(next: Places, ghost was: Places, ghost restored: Option<(Storage, Database)>)
      requires Recoverable(was, next, restored) && AllRecoverable(was, passed, restored)
      modifies this
      ensures disk == next && AllRecoverable(was, passed, restored)
    {
      disk := next;
      passed := passed + [next];
    }

    /** _sqlite_integrity_check of the live database. */
    function CheckIntegrity(fails: bool): (ok: bool)
      reads this
    {
      Main in disk.database && codec.integrity(disk.database[Main]) && !fails
    }

    /** The staging steps; live paths are not touched. */
    method Stage(backup: Storage, temporary: RelPath, faults: RestoreFaults, ghost restored: Option<(Storage, Database)>)
      returns (ok: bool)
      requires NothingStaged(disk) && AllRecoverable(disk, passed, restored)
      modifies this
      ensures AllRecoverable(old(disk), passed, restored)
      ensures disk == old(disk).(storageStage := disk.storageStage, databaseStage := disk.databaseStage)
      ensures ok <==> Stages(codec, backup, temporary, faults)
      ensures ok ==> DATABASE_PATH in backup
      ensures ok ==> disk.storageStage == Some(StorageOf(backup)) && disk.databaseStage == Some(backup[DATABASE_PATH])
    {
      hide StorageOf, AllRecoverable, Blocked;
      ghost var was := disk;
      if ["storage"] in backup {
        return false;
      }
      if faults.copyStorage.Some? {
        Step(disk.(storageStage := faults.copyStorage), was, restored);
        return false;
      }
      Step(disk.(storageStage := Some(StorageOf(backup))), was, restored);
      if faults.makeTemporary || Blocked(StorageOf(backup), temporary) {
        return false;
      }
      if DATABASE_PATH !in backup {
        return false;
      }
      if faults.copyDatabase.Some? {
        Step(disk.(databaseStage := faults.copyDatabase.value), was, restored);
        return false;
      }
      Step(disk.(databaseStage := Some(backup[DATABASE_PATH])), was, restored);
      ok := codec.integrity(backup[DATABASE_PATH]) && !faults.checkStage;
    }

    method MoveFileAside(f: DatabaseFile, ghost was: Places, ghost restored: Option<(Storage, Database)>)
      requires disk.databaseRollback.Some? && Parted(was.database, disk.database, disk.databaseRollback.value) && f in disk.database
      requires disk.storageRollback == was.storage && AllRecoverable(was, passed, restored)
      modifies this
      ensures disk.databaseRollback.Some? && Parted(was.database, disk.database, disk.databaseRollback.value)
      ensures disk == old(disk).(database := old(disk).database - {f}, databaseRollback := disk.databaseRollback)
      ensures AllRecoverable(was, passed, restored)
    {
      hide AllRecoverable, Parted, HoldsFiles;
      var live, aside := disk.database - {f}, disk.databaseRollback.value[f := disk.database[f]];
      OneMovedAside(was.database, disk.database, disk.databaseRollback.value, f);
      PartedHolds(was.database, live, aside);
      Step(disk.(database := live, databaseRollback := Some(aside)), was, restored);
    }

    /** _move_database_aside */
    method MoveDatabaseAside(faults: RestoreFaults, ghost was: Places, ghost restored: Option<(Storage, Database)>) returns (ok: bool)
      requires disk.database == was.database && disk.databaseRollback == None
      requires Recoverable(was, disk, restored) && AllRecoverable(was, passed, restored)
      requires disk.storageRollback == was.storage
      modifies this
      ensures AllRecoverable(was, passed, restored)
      ensures disk == old(disk).(database := disk.database, databaseRollback := disk.databaseRollback)
      ensures ok <==> MovesAside(was.database, faults)
      ensures ok ==> disk.database == map[] && disk.databaseRollback == Some(was.database)
      ensures !ok ==> Midway(was.(storage := old(disk).storage, storageRollback := None), disk.(storageRollback := None), false, false)
    {
      hide AllRecoverable, Parted, HoldsFiles;
      if faults.aside == Some(0) {
        return false;
      }
      NothingAside(was.database);
      Step(disk.(databaseRollback := Some(map[])), was, restored);
      for i := 0 to 3
        invariant disk.databaseRollback.Some? && disk == old(disk).(database := disk.database, databaseRollback := disk.databaseRollback)
        invariant Parted(was.database, disk.database, disk.databaseRollback.value)
        invariant forall j :: 0 <= j < i ==> ASIDE[j] !in disk.database
        invariant forall j :: i <= j < 3 ==> (ASIDE[j] in disk.database <==> ASIDE[j] in was.database)
        invariant AllRecoverable(was, passed, restored)
        invariant faults.aside != Some(0) && forall j :: 0 <= j < i && ASIDE[j] in was.database ==> faults.aside != Some(j + 1)
      {
        var f := ASIDE[i];
        if f in disk.database {
          if faults.aside == Some(i + 1) {
            return false;
          }
          MoveFileAside(f, was, restored);
        }
      }
      AllMoved(disk.database);
      PartedHolds(was.database, disk.database, disk.databaseRollback.value);
      ok := true;
    }

    /** The try block of _restore_verified_backup. */
    method Attempt(backup: Storage, temporary: RelPath, faults: RestoreFaults, migrate: Bytes -> Migration,
                   ghost restored: Option<(Storage, Database)>)
      returns (ok: bool, storageReplaced: bool, databaseReplaced: bool)
      requires NothingStaged(disk) && AllRecoverable(disk, passed, restored)
      requires DATABASE_PATH in backup && Migrates(codec, migrate(backup[DATABASE_PATH]), faults) ==>
                 restored == Some((StorageOf(backup), migrate(backup[DATABASE_PATH]).files))
      modifies this
      ensures AllRecoverable(old(disk), passed, restored)
      ensures databaseReplaced <==> Installs(codec, old(disk), backup, temporary, faults)
      ensures ok <==> databaseReplaced && Migrates(codec, migrate(backup[DATABASE_PATH]), faults)
      ensures ok ==>
                && disk.storage == Some(StorageOf(backup)) && disk.database == migrate(backup[DATABASE_PATH]).files
                && disk.storageRollback == None && disk.databaseRollback == None
      ensures !ok ==> Midway(old(disk), disk, storageReplaced, databaseReplaced)
      ensures databaseReplaced ==> DATABASE_PATH in backup && disk.database == migrate(backup[DATABASE_PATH]).files
    {
      hide StorageOf, AllRecoverable, Stages, MovesAside;
      ghost var was := disk;
      storageReplaced, databaseReplaced := false, false;
      ok := Stage(backup, temporary, faults, restored);
      if !ok {
        return;
      }
      ok := false;
      if disk.storage.Some? {
        if faults.moveStorage {
          return;
        }
        Step(disk.(storage := None, storageRollback := disk.storage), was, restored);
      }
      if faults.installStorage {
        return;
      }
      Step(disk.(storage := disk.storageStage, storageStage := None), was, restored);
      storageReplaced := true;
      var moved := MoveDatabaseAside(faults, was, restored);
      if !moved || faults.installDatabase {
        return;
      }
      Step(disk.(database := map[Main := disk.databaseStage.value], databaseStage := None), was, restored);
      databaseReplaced := true;
      var migration := migrate(backup[DATABASE_PATH]);
      Step(disk.(database := migration.files), was, restored);
      ok := migration.ok && CheckIntegrity(faults.checkDatabase);
      if ok {
        Step(disk.(storageRollback := None), was, restored);
        Step(disk.(databaseRollback := None), was, restored);
      }
    }

    /** _restore_database_rollback */
    method RestoreDatabaseRollback(ghost was: Places, ghost restored: Option<(Storage, Database)>)
      requires disk.databaseRollback.Some? && AllRecoverable(was, passed, restored)
      requires HoldsFiles(was.database, disk.database, disk.databaseRollback.value)
      requires forall f :: f in disk.databaseRollback.value ==> f in was.database && disk.databaseRollback.value[f] == was.database[f]
      requires was.storage.Some? ==> disk.storage == was.storage || disk.storageRollback == was.storage
      modifies this
      ensures AllRecoverable(was, passed, restored)
      ensures disk == old(disk).(database := old(disk).database + old(disk).databaseRollback.value, databaseRollback := Some(map[]))
    {
      hide AllRecoverable, HoldsFiles;
      while disk.databaseRollback.value != map[]
        invariant disk.databaseRollback.Some? && disk == old(disk).(database := disk.database, databaseRollback := disk.databaseRollback)
        invariant disk.database + disk.databaseRollback.value == old(disk).database + old(disk).databaseRollback.value
        invariant forall f :: f in disk.databaseRollback.value ==> f in was.database && disk.databaseRollback.value[f] == was.database[f]
        invariant HoldsFiles(was.database, disk.database, disk.databaseRollback.value)
        invariant AllRecoverable(was, passed, restored)
        decreases |disk.databaseRollback.value|
      {
        var rollback := disk.databaseRollback.value;
        var f :| f in rollback;
        OneMovedBack(was.database, disk.database, rollback, f);
        Step(disk.(database := disk.database[f := rollback[f]], databaseRollback := Some(rollback - {f})), was, restored);
      }
      assert disk.database + map[] == disk.database;
    }

    /** The except branch. */
    method Undo(storageReplaced: bool, databaseReplaced: bool, ghost was: Places, ghost restored: Option<(Storage, Database)>)
      requires Midway(was, disk, storageReplaced, databaseReplaced) && AllRecoverable(was, passed, restored)
      modifies this
      ensures AllRecoverable(was, passed, restored)
      ensures disk.storage == was.storage && disk.storageRollback == None
      ensures disk.database == if databaseReplaced then Undone(was.database, old(disk).database) else was.database
    {
      hide AllRecoverable;
      if databaseReplaced {
        Step(disk.(database := disk.database - {Main}), was, restored);
      }
      if disk.databaseRollback.Some? {
        RestoreDatabaseRollback(was, restored);
      }
      if storageReplaced {
        Step(disk.(storage := None), was, restored);
      }
      if disk.storageRollback.Some? {
        Step(disk.(storage := disk.storageRollback, storageRollback := None), was, restored);
      }
    }

    /** _restore_verified_backup. All or nothing: when it raises, storage is as it was and so are the
        database files, but for the sidecars of a migration that was undone, which none can be if the
        live database had both; otherwise storage is the backup's and the database is the migrated
        copy. */
    method RestoreVerifiedBackup(backup: Storage, temporary: RelPath, faults: RestoreFaults, migrate: Bytes -> Migration)
      returns (raised: bool)
      requires NothingStaged(disk)
      modifies this
      ensures !raised <==> Installs(codec, old(disk), backup, temporary, faults) && Migrates(codec, migrate(backup[DATABASE_PATH]), faults)
      ensures raised ==> disk.storage == old(disk).storage
      ensures raised && !Installs(codec, old(disk), backup, temporary, faults) ==> disk.database == old(disk).database
      ensures raised && Installs(codec, old(disk), backup, temporary, faults) ==>
                disk.database == Undone(old(disk).database, migrate(backup[DATABASE_PATH]).files)
      ensures raised && Wal in old(disk).database && Shm in old(disk).database ==> disk.database == old(disk).database
      ensures !raised ==> disk.storage == Some(StorageOf(backup)) && disk.database == migrate(backup[DATABASE_PATH]).files
      ensures !raised <==>
                && NoStepFailed(old(disk), faults)
                && DATABASE_PATH in backup && codec.integrity(backup[DATABASE_PATH])
                && ["storage"] !in backup && (forall k :: 0 <= k <= |temporary| ==> temporary[..k] !in StorageOf(backup))
                && migrate(backup[DATABASE_PATH]).ok && IsSoundDatabase(codec, migrate(backup[DATABASE_PATH]).files)
      ensures !raised ==> Main in disk.database && codec.integrity(disk.database[Main])
      ensures NothingStaged(disk)
      ensures AllRecoverable(old(disk), passed, Restored(codec, backup, faults, migrate))
    {
      hide StorageOf, AllRecoverable, Installs, Migrates, NoStepFailed;
      ghost var was := disk;
      ghost var restored := Restored(codec, backup, faults, migrate);
      passed := [];
      NothingPassed(was, restored);
      var ok, storageReplaced, databaseReplaced := Attempt(backup, temporary, faults, migrate, restored);
      if !ok {
        Undo(storageReplaced, databaseReplaced, was, restored);
      }
      Step(disk.(storageStage := None), was, restored);
      Step(disk.(databaseStage := None), was, restored);
      Step(disk.(databaseRollback := None), was, restored);
      UndoneExactlyWhen(was.database);
      if DATABASE_PATH in backup {
        PassesExactlyWhen(codec, was, backup, temporary, faults, migrate(backup[DATABASE_PATH]));
      }
      raised := !ok;
    }
  }

  /** A failed restore that does not give the database back: the live database has no write-ahead log,
      the migration opens one and then fails, and its log stays beside the old main file. */
  method LeftoverLog(codec: Codec, storage: Option<Storage>, main: Bytes, log: Bytes, backup: Storage, temporary: RelPath)
    returns (installation: Installation, raised: bool)
    requires Stages(codec, backup, temporary, NO_FAULTS)
    ensures raised && installation.disk.database == map[Main := main, Wal := log]
  {
    hide AllRecoverable;
    installation := new Installation(codec, storage, map[Main := main]);
    var left := map[Main := backup[DATABASE_PATH], Wal := log];
    raised := installation.RestoreVerifiedBackup(backup, temporary, NO_FAULTS, staged => Migration(left, false));
    assert Undone(map[Main := main], left) == map[Main := main, Wal := log];
  }

  /** What a restore that completes installs. */
  ghost function Restored(codec: Codec, backup: Storage, faults: RestoreFaults, migrate: Bytes -> Migration): Option<(Storage, Database)> {
    if DATABASE_PATH in backup && Migrates(codec, migrate(backup[DATABASE_PATH]), faults)
    then Some((StorageOf(backup), migrate(backup[DATABASE_PATH]).files))
    else None
  }

  lemma NothingPassed(was: Places, restored: Option<(Storage, Database)>)
    ensures AllRecoverable(was, [], restored)
  {
  }

  lemma AllMoved(live: Database)
    requires forall j :: 0 <= j < 3 ==> ASIDE[j] !in live
    ensures live == map[]
  {
    assert ASIDE[0] == Main && ASIDE[1] == Wal && ASIDE[2] == Shm;
    assert Main !in live && Wal !in live && Shm !in live;
    forall f: DatabaseFile
      ensures f !in live
    {
      match f
      case Main =>
      case Wal =>
      case Shm =>
    }
  }

  lemma NothingAside(whole: Database)
    ensures Parted(whole, whole, map[]) && HoldsFiles(whole, whole, map[])
  {
    assert whole + map[] == whole;
  }

  // ---- Backup and restore together ----

  /** What a backup of a live installation gives back. */
  lemma BackupHoldsTheInstallation(codec: Codec, live: Live, temporary: RelPath, m: BackupManifest)
    requires (forall b :: IsDigest(codec.hash(b))) && Payload(codec, m).Some?
    requires live.snapshot.Some? && live.root.Some?
    ensures var dir := Written(codec, Contents(live, temporary), m);
            && StorageOf(dir) == Retained(FilesOf(live.root.value, []), temporary, false)
            && DATABASE_PATH in dir && dir[DATABASE_PATH] == live.snapshot.value
  {
    hide Retained, FilesOf, StorageOf, BackupFiles, Payload;
    var storage, config := Retained(FilesOf(live.root.value, []), temporary, false), ConfigFiles(live.config);
    StorageReadsBack(codec, live.snapshot.value, storage, config, m);
    PopulatedPlaces(live.snapshot.value, storage, config);
    TopNames();
  }

  lemma PublishedHoldsTheInstallation(codec: Codec, live: Live, temporary: RelPath, m: BackupManifest, id: string, dir: Storage)
    requires IsPublished(codec, live, temporary, m, id, dir)
    ensures live.snapshot.Some? && live.root.Some?
    ensures StorageOf(dir) == Retained(FilesOf(live.root.value, []), temporary, false)
    ensures DATABASE_PATH in dir && dir[DATABASE_PATH] == live.snapshot.value
    ensures IsValid(codec, dir, id, ReportOf(m)) && !Escapes(codec, dir, id)
    ensures codec.integrity(live.snapshot.value)
  {
    hide Retained, FilesOf, StorageOf, BackupFiles, Payload, Written, ChecksumHolds, Parses, EntryMatches, Escapes;
    BackupHoldsTheInstallation(codec, live, temporary, m);
  }

  /** Nothing but directories stands where the temporary root is or is to be made. */
  predicate TemporaryRootIsClear(live: Live, temporary: RelPath) {
    live.root.Some? ==> !Blocked(FilesOf(live.root.value, []), temporary)
  }

  /** A backup of such an installation can be restored over anything: without I/O errors every step up
      to the migration succeeds. */
  lemma BackupInstalls(codec: Codec, live: Live, temporary: RelPath, m: BackupManifest, id: string, dir: Storage, was: Places)
    requires IsPublished(codec, live, temporary, m, id, dir) && TemporaryRootIsClear(live, temporary)
    ensures Installs(codec, was, dir, temporary, NO_FAULTS)
  {
    hide FilesOf, StorageOf, BackupFiles, Payload, Written, Omitted, Accepts, Escapes;
    var files := FilesOf(live.root.value, []);
    var kept := Retained(files, temporary, false);
    PublishedHoldsTheInstallation(codec, live, temporary, m, id, dir);
    FilesLieBelow(live.root.value, []);
    InBackup(codec, live.snapshot.value, kept, ConfigFiles(live.config), m, []);
    assert ["storage"] + [] == ["storage"];
    assert temporary[..0] == [];
    assert !Blocked(kept, temporary);
  }

  /** The live files as a backup would list them. */
  ghost predicate Lists(codec: Codec, live: Live, disk: Places) {
    && IsLive(codec, live)
    && disk.storage == if live.root.Some? then Some(FilesOf(live.root.value, [])) else None
  }

  /** The safety backup asked for before a restore. */
  datatype Safety = Safety(id: string, now: int, version: string, available: nat, faults: Faults) {
    predicate Valid() {
      IsBackupId(id) && |version| <= 64 && IsAscii(version)
    }
  }

  datatype Outcome = Completed | Raised

  /** A valid backup holds a database. */
  lemma ValidHasDatabase(codec: Codec, dir: Storage, id: string, report: BackupReport)
    requires IsValid(codec, dir, id, report)
    ensures DATABASE_PATH in dir && codec.integrity(dir[DATABASE_PATH])
  {
    hide SafeBackupId, Parses, EntryMatches, ChecksumHolds;
  }

  /** Every backup there was is still there, unchanged. */
  ghost predicate BackupsKept(before: map<string, Storage>, after: map<string, Storage>) {
    forall id :: id in before ==> id in after && after[id] == before[id]
  }

  /** When the safety backup is made: its steps before the manifest pass, which gives a draft, and the
      draft can be published. */
  ghost predicate SafetyWorks(codec: Codec, reserve: nat, live: Live, temporary: RelPath, safety: Safety,
                              draft: Option<BackupManifest>, taken: bool) {
    && CanPopulate(codec, live, Needed(live, temporary), safety.available, reserve, safety.faults.populating)
    && Publishes(codec, live, temporary, draft, taken, safety.faults)
  }

  lemma KeptByNothing(backups: map<string, Storage>)
    ensures BackupsKept(backups, backups)
  {
  }

  lemma KeptByPublishing(before: map<string, Storage>, id: string, dir: Storage)
    requires id !in before
    ensures BackupsKept(before, before[id := dir])
  {
  }

  /** The safety backup before a restore: it holds the storage as it was. */
  method TakeSafety(service: BackupService, live: Live, temporary: RelPath, safety: Safety, removal: string -> Removal)
    returns (ok: bool, ghost draft: Option<BackupManifest>)
    requires Sound(service.codec) && IsLive(service.codec, live) && temporary != [] && safety.Valid()
    modifies service
    ensures BackupsKept(old(service.backups), service.backups)
    ensures draft.Some? ==> IsDraft(service.codec, live, temporary, safety.id, safety.now, safety.version, draft.value)
    ensures draft.Some? <==>
              CanPopulate(service.codec, live, Needed(live, temporary), safety.available, service.reserve, safety.faults.populating)
    ensures ok <==> SafetyWorks(service.codec, service.reserve, live, temporary, safety, draft, safety.id in old(service.backups))
    ensures ok <==> safety.id in service.backups && safety.id !in old(service.backups)
    ensures ok ==> live.root.Some? && safety.id in service.backups
                   && StorageOf(service.backups[safety.id]) == Retained(FilesOf(live.root.value, []), temporary, false)
  {
    hide IsPublished, StorageOf, IsLive, Fits, IsDraft, Recognised, CanPopulate, Escapes, Retained, FilesOf, Sound, IsBackupId, Contents,
      BackupsKept;
    KeptByNothing(service.backups);
    var report;
    ghost var ranking;
    report, draft, ranking := service.CreateBackup(live, temporary, safety.id, safety.now, safety.version,
                                                   safety.available, safety.faults, false, removal);
    ok := report.Some?;
    if ok {
      KeptByPublishing(old(service.backups), safety.id, service.backups[safety.id]);
      PublishedHoldsTheInstallation(service.codec, live, temporary, draft.value, safety.id, service.backups[safety.id]);
    }
  }

  /** The outcome of a restore, for storage and database. */
  ghost predicate Restores(now: Places, dir: Storage, migrate: Bytes -> Migration) {
    && DATABASE_PATH in dir
    && now.storage == Some(StorageOf(dir))
    && now.database == migrate(dir[DATABASE_PATH]).files
  }

  /** When the selected backup is there and valid, and every step of the restore itself passes. */
  ghost predicate Restorable(codec: Codec, was: Places, backups: map<string, Storage>, id: string, temporary: RelPath,
                             faults: RestoreFaults, migrate: Bytes -> Migration) {
    && SafeBackupId(id).Some? && SafeBackupId(id).value in backups
    && var dir := backups[SafeBackupId(id).value];
    && (exists report :: IsValid(codec, dir, SafeBackupId(id).value, report))
    && Installs(codec, was, dir, temporary, faults)
    && Migrates(codec, migrate(dir[DATABASE_PATH]), faults)
  }

  /** When a restore completes, from what is there alone: a valid backup under the identifier in the
      text, nothing in the way, no step failing, and a migration that leaves a sound database. */
  ghost predicate CanRestore(codec: Codec, was: Places, backups: map<string, Storage>, id: string, temporary: RelPath,
                             faults: RestoreFaults, migrate: Bytes -> Migration) {
    exists selected, report ::
      && SafeBackupId(id) == Some(selected) && selected in backups && IsValid(codec, backups[selected], selected, report)
      && NoStepFailed(was, faults)
      && ["storage"] !in backups[selected]
      && (forall k :: 0 <= k <= |temporary| ==> temporary[..k] !in StorageOf(backups[selected]))
      && DATABASE_PATH in backups[selected]
      && migrate(backups[selected][DATABASE_PATH]).ok
      && IsSoundDatabase(codec, migrate(backups[selected][DATABASE_PATH]).files)
  }

  lemma RestorableExactlyWhen(codec: Codec, was: Places, backups: map<string, Storage>, id: string, temporary: RelPath,
                              faults: RestoreFaults, migrate: Bytes -> Migration)
    ensures Restorable(codec, was, backups, id, temporary, faults, migrate)
            <==> CanRestore(codec, was, backups, id, temporary, faults, migrate)
  {
    hide SafeBackupId, IsValid, Installs, Migrates, StorageOf, NoStepFailed, IsSoundDatabase;
    var selected := SafeBackupId(id);
    if selected.Some? && selected.value in backups {
      var dir := backups[selected.value];
      if report :| IsValid(codec, dir, selected.value, report) {
        ValidHasDatabase(codec, dir, selected.value, report);
        PassesExactlyWhen(codec, was, dir, temporary, faults, migrate(dir[DATABASE_PATH]));
      }
    }
  }

  /** restore_backup: verification, the safety backup if one is asked for, then the restore. It
      completes exactly when all of them pass. Whatever happens, no backup is lost. */
  method RestoreBackup(service: BackupService, installation: Installation, id: string, live: Live, temporary: RelPath,
                       safety: Option<Safety>, faults: RestoreFaults, migrate: Bytes -> Migration, removal: string -> Removal)
    returns (outcome: Outcome, ghost draft: Option<BackupManifest>)
    requires Sound(service.codec) && installation.codec == service.codec && NothingStaged(installation.disk)
    requires Lists(service.codec, live, installation.disk) && temporary != [] && (safety.Some? ==> safety.value.Valid())
    modifies service, installation
    ensures NothingStaged(installation.disk) && BackupsKept(old(service.backups), service.backups)
    ensures outcome == Completed <==>
              && Restorable(service.codec, old(installation.disk), old(service.backups), id, temporary, faults, migrate)
              && (safety.Some? ==> SafetyWorks(service.codec, service.reserve, live, temporary, safety.value, draft,
                                               safety.value.id in old(service.backups)))
    ensures draft.Some? ==>
              && safety.Some?
              && IsDraft(service.codec, live, temporary, safety.value.id, safety.value.now, safety.value.version, draft.value)
    ensures outcome == Completed ==>
              && SafeBackupId(id).Some? && SafeBackupId(id).value in old(service.backups)
              && Restores(installation.disk, old(service.backups)[SafeBackupId(id).value], migrate)
              && IsSoundDatabase(service.codec, installation.disk.database)
    ensures outcome == Completed ==> CanRestore(service.codec, old(installation.disk), old(service.backups), id, temporary, faults, migrate)
    ensures && CanRestore(service.codec, old(installation.disk), old(service.backups), id, temporary, faults, migrate)
            && (safety.Some? ==> safety.value.id in service.backups && safety.value.id !in old(service.backups))
            ==> outcome == Completed
    ensures outcome == Raised ==> installation.disk.storage == old(installation.disk).storage
    ensures outcome == Raised && Wal in old(installation.disk).database && Shm in old(installation.disk).database ==>
              installation.disk.database == old(installation.disk).database
    ensures outcome == Raised && installation.disk.database != old(installation.disk).database ==>
              && SafeBackupId(id).Some? && SafeBackupId(id).value in old(service.backups)
              && var dir := old(service.backups)[SafeBackupId(id).value];
                 Installs(service.codec, old(installation.disk), dir, temporary, faults) && DATABASE_PATH in dir
                 && installation.disk.database == Undone(old(installation.disk).database, migrate(dir[DATABASE_PATH]).files)
    ensures outcome == Completed && safety.Some? ==>
              && live.root.Some? && safety.value.id in service.backups
              && StorageOf(service.backups[safety.value.id]) == Retained(FilesOf(live.root.value, []), temporary, false)
  {
    hide IsValid, StorageOf, IsLive, BackupsKept, IsBackupId, Retained, FilesOf, Installs, Migrates, Undone, AllRecoverable,
      SafeBackupId, CanRestore, NoStepFailed, Sound, SafetyWorks, IsDraft, CanPopulate;
    var selected := SafeBackupId(id);
    draft := None;
    RestorableExactlyWhen(service.codec, installation.disk, service.backups, id, temporary, faults, migrate);
    KeptByNothing(service.backups);
    if selected == None {
      return Raised, draft;
    }
    SelectedIsStripped(id);
    var report := service.VerifyBackup(selected.value);
    if report == None {
      return Raised, draft;
    }
    var dir := service.backups[selected.value];
    ValidHasDatabase(service.codec, dir, selected.value, report.value);
    if safety.Some? {
      var taken;
      taken, draft := TakeSafety(service, live, temporary, safety.value, removal);
      if !taken {
        return Raised, draft;
      }
    }
    var raised := installation.RestoreVerifiedBackup(dir, temporary, faults, migrate);
    outcome := if raised then Raised else Completed;
  }

  lemma SelectedIsStripped(id: string)
    requires SafeBackupId(id).Some?
    ensures SafeBackupId(SafeBackupId(id).value) == SafeBackupId(id)
  {
    BackupIdIsStripped(SafeBackupId(id).value);
  }

  /** A valid backup that can be installed is restored exactly when its migration leaves a sound database. */
  lemma ValidIsRestorable(codec: Codec, was: Places, backups: map<string, Storage>, id: string, temporary: RelPath,
                          report: BackupReport, migrate: Bytes -> Migration)
    requires IsBackupId(id) && id in backups && IsValid(codec, backups[id], id, report)
    requires Installs(codec, was, backups[id], temporary, NO_FAULTS) && DATABASE_PATH in backups[id]
    ensures var migration := migrate(backups[id][DATABASE_PATH]);
            Restorable(codec, was, backups, id, temporary, NO_FAULTS, migrate) <==>
            (migration.ok && IsSoundDatabase(codec, migration.files))
  {
    hide SafeBackupId, IsValid, Installs, IsBackupId;
    BackupIdIsStripped(id);
  }

  /** Create a backup, change the live installation in any way, restore that backup: storage is what
      was not below the temporary root at creation, and the database is the snapshot, migrated. The
      restore completes if the temporary root was clear, the migration passes and no I/O error occurs. */
  method CreateThenRestore(service: BackupService, installation: Installation, live: Live, temporary: RelPath, created: Safety,
                           retain: bool, changed: Places, later: Live, faults: RestoreFaults, migrate: Bytes -> Migration,
                           removal: string -> Removal)
    returns (outcome: Option<Outcome>, ghost draft: Option<BackupManifest>)
    requires Sound(service.codec) && installation.codec == service.codec && IsLive(service.codec, live) && temporary != []
    requires created.Valid() && NothingStaged(changed) && Lists(service.codec, later, changed)
    modifies service, installation
    ensures draft.Some? <==>
              CanPopulate(service.codec, live, Needed(live, temporary), created.available, service.reserve, created.faults.populating)
    ensures draft.Some? ==> IsDraft(service.codec, live, temporary, created.id, created.now, created.version, draft.value)
    ensures outcome.Some? <==>
              && Publishes(service.codec, live, temporary, draft, created.id in old(service.backups), created.faults)
              && (retain ==> NothingEscapes(service.codec, old(service.backups)))
    ensures outcome.Some? && faults == NO_FAULTS && TemporaryRootIsClear(live, temporary) ==>
              (outcome == Some(Completed) <==>
                 migrate(live.snapshot.value).ok && IsSoundDatabase(service.codec, migrate(live.snapshot.value).files))
    ensures outcome == Some(Completed) ==>
              && live.root.Some? && live.snapshot.Some?
              && installation.disk.storage == Some(Retained(FilesOf(live.root.value, []), temporary, false))
              && installation.disk.database == migrate(live.snapshot.value).files
              && IsSoundDatabase(service.codec, installation.disk.database)
  {
    hide IsPublished, StorageOf, IsLive, Fits, IsDraft, IsBackupId, CanPopulate, Escapes, Retained, FilesOf, Contents,
      Ranks, AfterRetention, SafeBackupId, BackupsKept, IsValid, Sound, Installs, IsSoundDatabase, TemporaryRootIsClear, Recognised, NothingEscapes,
      Restorable;
    var report;
    ghost var ranking;
    report, draft, ranking := service.CreateBackup(live, temporary, created.id, created.now, created.version,
                                                   created.available, created.faults, retain, removal);
    if Publishes(service.codec, live, temporary, draft, created.id in old(service.backups), created.faults) {
      ghost var dir := service.backups[created.id];
      PublishedHoldsTheInstallation(service.codec, live, temporary, draft.value, created.id, dir);
      RecognisedAfterPublishing(service.codec, old(service.backups), created.id, dir, old(service.backups)[created.id := dir]);
    }
    if report == None {
      return None, draft;
    }
    BackupIdIsStripped(created.id);
    if TemporaryRootIsClear(live, temporary) {
      BackupInstalls(service.codec, live, temporary, draft.value, created.id, service.backups[created.id], changed);
      ValidIsRestorable(service.codec, changed, service.backups, created.id, temporary, ReportOf(draft.value), migrate);
    }
    installation.disk := changed;
    var restored, nothing := RestoreBackup(service, installation, created.id, later, temporary, None, faults, migrate, removal);
    outcome := Some(restored);
  }

  /** No backup that a listing looks at stops it. */
  ghost predicate NothingEscapes(codec: Codec, backups: map<string, Storage>) {
    forall id :: id in Recognised(backups) ==> !Escapes(codec, backups[id], id)
  }

  lemma RecognisedAfterPublishing(codec: Codec, before: map<string, Storage>, id: string, dir: Storage, after: map<string, Storage>)
    requires id !in before && !Escapes(codec, dir, id) && after == before[id := dir]
    ensures (exists other :: other in Recognised(after) && Escapes(codec, after[other], other)) <==> !NothingEscapes(codec, before)
  {
    hide Escapes, IsBackupId;
    forall other | other in Recognised(before)
      ensures other in Recognised(after) && after[other] == before[other]
    {
    }
  }
}
