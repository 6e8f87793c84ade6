/** What a backup is made of, and exactly when the directory written for it is accepted
    (`app/services/backup_service.py`). */
module BackupContents {
  import opened Prelude
  import opened BackupPaths
  import opened Manifest
  import opened BackupTree
  import opened BackupVerify

  /** Files under names that a POSIX file system can hold and look up. */
  ghost predicate RealPaths(codec: Codec, files: Storage) {
    forall path :: path in files ==> IsPath(path) && ".." !in path && Findable(codec, path)
  }

  // ---- The entries of a populated backup ----

  lemma DatabaseDeclares(hash: Hash, database: Bytes)
    ensures Declares(hash, [DatabaseEntry(hash, database)], map[DATABASE_PATH := database])
  {
    hide Posix;
    var entries, files := [DatabaseEntry(hash, database)], map[DATABASE_PATH := database];
    DatabaseText();
    assert entries[0].relativePath == Posix(DATABASE_PATH);
    assert DATABASE_PATH in files && IsEntryOf(hash, entries[0], files);
    assert HasPath(entries, Posix(DATABASE_PATH));
  }

  /** One file and its entry, as they stand in a backup. */
  lemma CopiedEntry(hash: Hash, top: string, copied: Storage, path: RelPath)
    requires path in copied
    ensures IsEntryOf(hash, EntryFor(hash, top, path, copied[path]), Below(top, copied))
    ensures [top] + path in Below(top, copied)
  {
    hide Posix, Below;
    BelowAt(top, copied);
    assert [top] + path in Below(top, copied);
  }

  lemma CopiedTextsDiffer(top: string, a: RelPath, b: RelPath)
    requires a != b && IsPath([top] + a) && IsPath([top] + b)
    ensures Posix([top] + a) != Posix([top] + b)
  {
    hide Posix, IsPath;
    assert a == ([top] + a)[1..] && b == ([top] + b)[1..];
    if Posix([top] + a) == Posix([top] + b) {
      TextsAreInjective([top] + a, [top] + b);
    }
  }

  lemma CopiedHasPath(hash: Hash, top: string, entries: seq<BackupEntry>, paths: seq<RelPath>, copied: Storage, path: RelPath)
    requires Describes(hash, top, entries, paths, copied) && path in Below(top, copied)
    ensures HasPath(entries, Posix(path))
  {
    hide Posix, Below;
    BelowAt(top, copied);
    assert path[1..] in paths && path == [top] + path[1..];
    var i :| 0 <= i < |paths| && paths[i] == path[1..];
    assert entries[i].relativePath == Posix(path);
  }

  /** The entries made while copying below a top directory declare the files placed there. */
  lemma CopiedDeclares(hash: Hash, top: string, entries: seq<BackupEntry>, paths: seq<RelPath>, copied: Storage)
    requires Describes(hash, top, entries, paths, copied)
    requires forall path :: path in Below(top, copied) ==> IsPath(path)
    ensures Declares(hash, entries, Below(top, copied))
  {
    hide Posix, IsPath, Below, IsEntryOf, HasPath;
    forall i | 0 <= i < |entries|
      ensures IsEntryOf(hash, entries[i], Below(top, copied)) && IsPath([top] + paths[i])
    {
      CopiedEntry(hash, top, copied, paths[i]);
    }
    forall i, j | 0 <= i < j < |entries|
      ensures entries[i].relativePath != entries[j].relativePath
    {
      CopiedTextsDiffer(top, paths[i], paths[j]);
    }
    forall path | path in Below(top, copied)
      ensures HasPath(entries, Posix(path))
    {
      CopiedHasPath(hash, top, entries, paths, copied, path);
    }
  }

  /** Two lists of entries for different files can be joined. */
  lemma JoinedDeclare(hash: Hash, a: seq<BackupEntry>, first: Storage, b: seq<BackupEntry>, second: Storage)
    requires Declares(hash, a, first) && Declares(hash, b, second) && first.Keys !! second.Keys
    requires forall path :: path in first || path in second ==> IsPath(path)
    ensures Declares(hash, a + b, first + second)
  {
    hide Posix, IsPath;
    var files := first + second;
    forall i | 0 <= i < |a + b|
      ensures IsEntryOf(hash, (a + b)[i], files)
    {
      if i < |a| {
        assert IsEntryOf(hash, a[i], first);
      } else {
        assert IsEntryOf(hash, b[i - |a|], second);
      }
    }
    forall i, j | 0 <= i < |a| && 0 <= j < |b|
      ensures a[i].relativePath != b[j].relativePath
    {
      assert IsEntryOf(hash, a[i], first) && IsEntryOf(hash, b[j], second);
      var p :| p in first && a[i].relativePath == Posix(p);
      var q :| q in second && b[j].relativePath == Posix(q);
      if Posix(p) == Posix(q) {
        TextsAreInjective(p, q);
      }
    }
    forall path | path in files
      ensures HasPath(a + b, Posix(path))
    {
      if path in first {
        assert HasPath(a, Posix(path));
        var i :| 0 <= i < |a| && a[i].relativePath == Posix(path);
        assert (a + b)[i].relativePath == Posix(path);
      } else {
        assert HasPath(b, Posix(path));
        var i :| 0 <= i < |b| && b[i].relativePath == Posix(path);
        assert (a + b)[|a| + i].relativePath == Posix(path);
      }
    }
  }

  lemma TopsAreSafe()
    ensures IsSafePath(["storage"]) && IsSafePath(["config"]) && IsAscii("storage") && IsAscii("config")
  {
    var a, b := "storage", "config";
    assert |a| == 7 && a[0] == 's' && a[1] == 't' && a[2] == 'o' && a[3] == 'r' && a[4] == 'a' && a[5] == 'g' && a[6] == 'e';
    assert |b| == 6 && b[0] == 'c' && b[1] == 'o' && b[2] == 'n' && b[3] == 'f' && b[4] == 'i' && b[5] == 'g';
  }

  /** Placing files below a top directory keeps their names real, and safe exactly when they were. */
  lemma BelowKeepsNames(codec: Codec, top: string, storage: Storage)
    requires IsSafePath([top]) && codec.encodable(top) && RealPaths(codec, storage)
    ensures RealPaths(codec, Below(top, storage))
    ensures AllSafe(Below(top, storage)) <==> AllSafe(storage)
  {
    hide Below, IsPart, HasForbiddenCharacter;
    BelowAt(top, storage);
    assert [top][0] == top;
    forall path: RelPath | path != [] && path[0] == top
      ensures IsPath(path[1..]) ==> IsPath(path)
      ensures IsSafePath(path) <==> IsSafePath(path[1..])
      ensures ".." !in path[1..] ==> ".." !in path
      ensures Findable(codec, path[1..]) ==> Findable(codec, path)
    {
      assert path == [top] + path[1..];
      assert forall i :: 0 <= i < |path[1..]| ==> path[1..][i] == path[i + 1];
    }
    forall path | path in storage
      ensures ([top] + path)[1..] == path && [top] + path in Below(top, storage)
    {
    }
  }

  lemma PopulatedNames(codec: Codec, database: Bytes, storage: Storage, config: Storage)
    requires Sound(codec) && RealPaths(codec, storage) && RealPaths(codec, config)
    ensures var files := BackupFiles(database, storage, config);
            && RealPaths(codec, files) && RealPaths(codec, Below("storage", storage)) && RealPaths(codec, Below("config", config))
            && (AllSafe(files) <==> AllSafe(storage) && AllSafe(config))
  {
    hide Below, IsSafePath, IsPath, Findable, PrintsBack;
    TopsAreSafe();
    BelowKeepsNames(codec, "storage", storage);
    BelowKeepsNames(codec, "config", config);
    DatabaseIsReal(codec);
    PopulatedPlaces(database, storage, config);
    UnionNames(codec, map[DATABASE_PATH := database], Below("storage", storage));
    UnionNames(codec, map[DATABASE_PATH := database] + Below("storage", storage), Below("config", config));
  }

  lemma UnionNames(codec: Codec, a: Storage, b: Storage)
    ensures RealPaths(codec, a) && RealPaths(codec, b) ==> RealPaths(codec, a + b)
    ensures AllSafe(a) && AllSafe(b) ==> AllSafe(a + b)
    ensures a.Keys !! b.Keys ==> (AllSafe(a + b) <==> AllSafe(a) && AllSafe(b))
  {
    hide IsSafePath, IsPath, Findable;
    assert forall path :: path in a || path in b ==> path in a + b;
  }

  lemma PopulatedPlaces(database: Bytes, storage: Storage, config: Storage)
    ensures var files := BackupFiles(database, storage, config);
            && DATABASE_PATH in files && MANIFEST !in files && CHECKSUM !in files
            && files[DATABASE_PATH] == database
    ensures {DATABASE_PATH} !! Below("storage", storage).Keys
    ensures (map[DATABASE_PATH := database] + Below("storage", storage)).Keys !! Below("config", config).Keys
  {
    hide Below;
    TopNames();
    BelowAt("storage", storage);
    BelowAt("config", config);
  }

  /** A populated backup: its entries declare exactly its files. */
  lemma PopulatedDeclares(codec: Codec, database: Bytes, storage: Storage, config: Storage,
                          stored: seq<BackupEntry>, storedPaths: seq<RelPath>,
                          configured: seq<BackupEntry>, configPaths: seq<RelPath>)
    requires Describes(codec.hash, "storage", stored, storedPaths, storage)
    requires Describes(codec.hash, "config", configured, configPaths, config)
    requires Sound(codec) && RealPaths(codec, storage) && RealPaths(codec, config)
    ensures Declares(codec.hash, [DatabaseEntry(codec.hash, database)] + stored + configured,
                     BackupFiles(database, storage, config))
  {
    hide Below, Declares, Describes, IsSafePath, IsPath, Findable, DatabaseEntry, Sound;
    var a, b, c := map[DATABASE_PATH := database], Below("storage", storage), Below("config", config);
    PopulatedPlaces(database, storage, config);
    PopulatedNames(codec, database, storage, config);
    DatabaseIsReal(codec);
    DatabaseDeclares(codec.hash, database);
    CopiedDeclares(codec.hash, "storage", stored, storedPaths, storage);
    CopiedDeclares(codec.hash, "config", configured, configPaths, config);
    JoinedDeclare(codec.hash, [DatabaseEntry(codec.hash, database)], a, stored, b);
    JoinedDeclare(codec.hash, [DatabaseEntry(codec.hash, database)] + stored, a + b, configured, c);
  }

  lemma DatabaseIsReal(codec: Codec)
    requires Sound(codec)
    ensures IsSafePath(DATABASE_PATH) && IsPath(DATABASE_PATH) && ".." !in DATABASE_PATH && Findable(codec, DATABASE_PATH)
  {
    DatabaseText();
    DatabaseIsAscii();
  }

  lemma DatabaseIsAscii()
    ensures forall i :: 0 <= i < 2 ==> IsAscii(DATABASE_PATH[i])
  {
    DatabaseNames();
    var a, b := "database", "software-hub.sqlite3";
    assert |a| == 8 && |b| == 20;
    assert a[0] < 'z' && a[1] < 'z' && a[2] < 'z' && a[3] < 'z' && a[4] < 'z' && a[5] < 'z' && a[6] < 'z' && a[7] < 'z';
    assert b[0] < 'z' && b[1] < 'z' && b[2] < 'z' && b[3] < 'z' && b[4] < 'z' && b[5] < 'z' && b[6] < 'z' && b[7] < 'z'
        && b[8] < 'z' && b[9] < 'z' && b[10] < 'z' && b[11] < 'z' && b[12] < 'z' && b[13] < 'z' && b[14] < 'z' && b[15] < 'z'
        && b[16] < 'z' && b[17] < 'z' && b[18] < 'z' && b[19] < 'z';
  }

  // ---- Exactly when it is accepted ----

  lemma {:induction false} TextHoldsItsParts(path: RelPath, i: nat, c: char)
    requires i < |path| && c in path[i]
    ensures c in Posix(path)
  {
    if |path| > 1 && i > 0 {
      TextHoldsItsParts(path[1..], i - 1, c);
    }
  }

  /** The manifest parsed from a printed one declares safe paths, and the same revision. */
  lemma ParsedBackIsSafe(codec: Codec, files: Storage, m: BackupManifest, n: BackupManifest)
    requires Sound(codec) && Declares(codec.hash, m.entries, files) && RealPaths(codec, files)
    requires Parses(codec.rt, ToJson(codec.rt, m), n)
    ensures AllSafe(files) && n.databaseRevision == m.databaseRevision
  {
    hide SafeBackupId, IsRevision, PathsDistinct, HasForbiddenCharacter, Posix, ToJson;
    PrintedFields(codec.rt, m);
    forall path | path in files
      ensures IsSafePath(path)
    {
      assert HasPath(m.entries, Posix(path));
      var i :| 0 <= i < |m.entries| && m.entries[i].relativePath == Posix(path);
      var item := ToJson(codec.rt, m).fields["entries"].items[i];
      assert ParseEntry(codec.rt, item).Value?;
      EntryText(codec.rt, m.entries[i]);
      NamesWithoutForbiddenCharacters(path);
    }
  }

  lemma EntryText(rt: Runtime, entry: BackupEntry)
    requires Lawful(rt) && ParseEntry(rt, EntryToJson(entry)).Value?
    ensures !HasForbiddenCharacter(entry.relativePath)
  {
  }

  lemma NamesWithoutForbiddenCharacters(path: RelPath)
    requires IsPath(path) && ".." !in path && !HasForbiddenCharacter(Posix(path))
    ensures IsSafePath(path)
  {
    forall i | 0 <= i < |path|
      ensures !HasForbiddenCharacter(path[i])
    {
      if '\0' in path[i] {
        TextHoldsItsParts(path, i, '\0');
      }
      if '\\' in path[i] {
        TextHoldsItsParts(path, i, '\\');
      }
    }
  }

  /** Every name is UTF-8, as the text of a manifest needs it. */
  ghost predicate Utf8Names(codec: Codec, files: Storage) {
    forall path :: path in files ==> codec.utf8(Posix(path))
  }

  /** The manifest of some files can be written exactly when all their names are UTF-8. */
  lemma PrintableExactlyWhen(codec: Codec, files: Storage, m: BackupManifest)
    requires Sound(codec) && HeaderFits(m) && Declares(codec.hash, m.entries, files)
    ensures Payload(codec, m).Some? <==> Utf8Names(codec, files)
  {
    hide HeaderFits, Posix, Payload;
    assert PrintsBack(codec, m);
    if Utf8Names(codec, files) {
      forall i | 0 <= i < |m.entries|
        ensures codec.utf8(m.entries[i].relativePath)
      {
        assert IsEntryOf(codec.hash, m.entries[i], files);
      }
    }
    if Printable(codec, m) {
      forall path | path in files
        ensures codec.utf8(Posix(path))
      {
        assert HasPath(m.entries, Posix(path));
      }
    }
  }

  lemma DeclaredDigests(codec: Codec, files: Storage, entries: seq<BackupEntry>)
    requires Sound(codec) && Declares(codec.hash, entries, files)
    ensures forall i :: 0 <= i < |entries| ==> IsDigest(entries[i].sha256)
  {
    hide Posix, IsDigest, PrintsBack;
    forall i | 0 <= i < |entries|
      ensures IsDigest(entries[i].sha256)
    {
      assert IsEntryOf(codec.hash, entries[i], files);
    }
  }

  /** A printed manifest is parsed without an unexpected error. */
  lemma PrintedDoesNotEscape(rt: Runtime, m: BackupManifest)
    requires Lawful(rt)
    ensures !ParseEscapes(rt, ToJson(rt, m))
  {
    hide SafeBackupId, IsRevision, IsOne, ToJson, HasPath, IsParsedFrom, EntryPath;
    PrintedFields(rt, m);
    var raw := ToJson(rt, m);
    if HeaderStands(rt, raw.fields) {
      forall i | 0 <= i < |m.entries|
        ensures ParseEntry(rt, raw.fields["entries"].items[i]) != Escaping
      {
        assert raw.fields["entries"].items[i] == EntryToJson(m.entries[i]);
        SizesDoNotOverflow(rt, m.entries[i]);
      }
    }
  }

  lemma SizesDoNotOverflow(rt: Runtime, entry: BackupEntry)
    requires Lawful(rt)
    ensures ParseEntry(rt, EntryToJson(entry)) != Escaping
  {
  }

  /** Verifying a backup just written ends in no unexpected error. */
  lemma WrittenDoesNotEscape(codec: Codec, files: Storage, m: BackupManifest)
    requires Sound(codec) && Declares(codec.hash, m.entries, files) && RealPaths(codec, files)
    requires DATABASE_PATH in files && MANIFEST !in files && CHECKSUM !in files
    requires HeaderFits(m) && Payload(codec, m).Some?
    ensures !Escapes(codec, Written(codec, files, m), m.backupId)
  {
    hide IsRevision, IsBackupId, ToJson, Parses, ChecksumFile, Ascii, SafeBackupId, Declares, AllSafe, RealPaths, ParseEscapes, LookupEscapes;
    var dir := Written(codec, files, m);
    var raw := ToJson(codec.rt, m);
    TopNames();
    assert MANIFEST != CHECKSUM;
    assert PrintsBack(codec, m) && codec.decode(dir[MANIFEST]) == Value(raw);
    ChecksumFileReadsBack(codec.hash(dir[MANIFEST]));
    PrintedDoesNotEscape(codec.rt, m);
    forall n | Parses(codec.rt, raw, n)
      ensures !LookupEscapes(codec, dir, n.entries)
    {
      EntriesCanBeFound(codec, files, m, n, dir);
    }
  }

  lemma EntriesCanBeFound(codec: Codec, files: Storage, m: BackupManifest, n: BackupManifest, dir: Storage)
    requires Sound(codec) && Declares(codec.hash, m.entries, files) && RealPaths(codec, files)
    requires DATABASE_PATH in files && HeaderFits(m) && Parses(codec.rt, ToJson(codec.rt, m), n)
    ensures !LookupEscapes(codec, dir, n.entries)
  {
    hide HeaderFits, Parses, Declares, AllSafe, ToJson, WellFormedManifest;
    ParsedBackIsSafe(codec, files, m, n);
    DeclaredIsWellFormed(codec, files, m);
    ManifestRoundTrip(codec.rt, m);
    ParsingIsFunctional(codec.rt, ToJson(codec.rt, m), m, n);
    DeclaredPathsAreTheFiles(codec.hash, m.entries, files);
  }

  /** The directory written for some files is accepted exactly when every path is safe (no file name
      holds a backslash), the manifest is at most 4 MiB and SQLite approves of the database. */
  lemma WrittenBackupIsAcceptedExactlyWhen(codec: Codec, files: Storage, m: BackupManifest)
    requires Sound(codec) && Declares(codec.hash, m.entries, files) && RealPaths(codec, files)
    requires DATABASE_PATH in files && MANIFEST !in files && CHECKSUM !in files
    requires HeaderFits(m) && Payload(codec, m).Some?
    ensures (exists n :: Accepts(codec, Written(codec, files, m), m.backupId, n))
            <==> && AllSafe(files)
                 && |Payload(codec, m).value| <= MAX_MANIFEST_BYTES
                 && codec.integrity(files[DATABASE_PATH])
                 && codec.revision(files[DATABASE_PATH]) == Some(m.databaseRevision)
    ensures !Escapes(codec, Written(codec, files, m), m.backupId)
  {
    hide IsRevision, IsBackupId, ToJson, Parses, ChecksumFile, Ascii, SafeBackupId, Declares, AllSafe, RealPaths, ParseEscapes;
    var dir := Written(codec, files, m);
    TopNames();
    assert MANIFEST != CHECKSUM && DATABASE_PATH != MANIFEST && DATABASE_PATH != CHECKSUM;
    assert PrintsBack(codec, m);
    forall n | Accepts(codec, dir, m.backupId, n)
      ensures AllSafe(files) && n.databaseRevision == m.databaseRevision
    {
      ParsedBackIsSafe(codec, files, m, n);
    }
    assert AllFindable(codec, files) by { RealIsFindable(codec, files); }
    if AllSafe(files) && FitsPatterns(codec, m) && codec.integrity(files[DATABASE_PATH])
       && codec.revision(files[DATABASE_PATH]) == Some(m.databaseRevision) {
      WrittenBackupIsAccepted(codec, files, m);
    }
    WrittenDoesNotEscape(codec, files, m);
  }

  lemma RealIsFindable(codec: Codec, files: Storage)
    requires RealPaths(codec, files)
    ensures AllFindable(codec, files)
  {
  }
}
