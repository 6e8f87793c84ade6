/** Verification of a backup directory, and why a backup just written passes it
    (`app/services/backup_service.py`). */
module BackupVerify {
  import opened Prelude
  import opened BackupPaths
  import opened Manifest
  import opened BackupTree
  import opened LikeSearch

  /** The foreign parts: SHA-256, JSON text, SQLite's integrity check and schema revision, the order
      in which manifest entries are sorted, and the two ways in which text becomes bytes: `utf8` says
      that a text can be written as UTF-8, `encodable` that the file system can look a name up. */
  datatype Codec = Codec(hash: Hash, rt: Runtime, encode: Json -> Option<Bytes>, decode: Bytes -> Parsed<Json>,
                         utf8: string -> bool, encodable: string -> bool,
                         integrity: Bytes -> bool, revision: Bytes -> Option<string>,
                         arrange: seq<BackupEntry> -> seq<BackupEntry>)

  /** All that is assumed of them. The manifest of a backup can be printed exactly when its paths
      are UTF-8, and is then read back; ASCII names can be looked up. */
  ghost predicate Sound(codec: Codec) {
    && Lawful(codec.rt)
    && (forall b :: IsDigest(codec.hash(b)))
    && (forall m :: HeaderFits(m) ==> PrintsBack(codec, m))
    && (forall s :: IsAscii(s) ==> codec.encodable(s))
    && (forall entries :: multiset(codec.arrange(entries)) == multiset(entries))
  }

  /** The fields of a manifest that the program itself fills in, all of them ASCII. */
  ghost predicate HeaderFits(m: BackupManifest) {
    && IsBackupId(m.backupId)
    && |m.appVersion| <= 64 && IsAscii(m.appVersion)
    && IsRevision(m.databaseRevision)
    && forall i :: 0 <= i < |m.entries| ==> IsDigest(m.entries[i].sha256)
  }

  function Payload(codec: Codec, m: BackupManifest): Option<Bytes> {
    codec.encode(ToJson(codec.rt, m))
  }

  predicate Printable(codec: Codec, m: BackupManifest) {
    forall i :: 0 <= i < |m.entries| ==> codec.utf8(m.entries[i].relativePath)
  }

  ghost predicate PrintsBack(codec: Codec, m: BackupManifest) {
    && (Payload(codec, m).Some? <==> Printable(codec, m))
    && (Payload(codec, m).Some? ==> codec.decode(Payload(codec, m).value) == Value(ToJson(codec.rt, m)))
  }

  predicate IsAscii(s: string) {
    forall i :: 0 <= i < |s| ==> s[i] < 128 as char
  }

  const MANIFEST_NAME := "manifest.json"
  const MANIFEST: RelPath := ["manifest.json"]
  const CHECKSUM: RelPath := ["manifest.sha256"]
  const MAX_MANIFEST_BYTES := 4 * 1024 * 1024

  /** Accepted, refused with one of the two expected errors, or left by another error. */
  datatype Verdict =
    | Accepted(report: BackupReport)
    | Refused
    | Escaped

  datatype BackupReport = BackupReport(backupId: string, createdAt: int, fileCount: nat, totalBytes: nat, revision: string)

  function ReportOf(m: BackupManifest): BackupReport {
    BackupReport(m.backupId, m.createdAt, |m.entries|, TotalBytes(m.entries), m.databaseRevision)
  }

  // ---- The checksum file ----

  /** read_text(encoding="ascii"): None when a byte is not ASCII. */
  function Ascii(data: Bytes): Option<string> {
    if forall i :: 0 <= i < |data| ==> data[i] < 128
    then Some(seq(|data|, i requires 0 <= i < |data| && data[i] < 128 => data[i] as char))
    else None
  }

  function ToBytes(s: string): Bytes
    requires IsAscii(s)
  {
    seq(|s|, i requires 0 <= i < |s| => s[i] as byte)
  }

  function ChecksumLine(digest: Digest): string {
    digest + "  " + MANIFEST_NAME + "\n"
  }

  function ChecksumFile(digest: Digest): Bytes
    requires IsDigest(digest)
  {
    ToBytes(ChecksumLine(digest))
  }

  lemma OneWord(word: string, rest: string)
    requires IsWord(word) && (rest == "" || IsSpace(rest[0]))
    ensures Words(word + rest) == [word] + Words(rest)
  {
    var s := word + rest;
    WordEndsAt(s, |word|);
    assert s[..|word|] == word && s[|word|..] == rest && s[0] == word[0];
  }

  lemma SkipSpace(rest: string)
    ensures Words([' '] + rest) == Words(rest)
  {
    assert ([' '] + rest)[1..] == rest;
  }

  lemma ManifestNameIsWord()
    ensures IsWord(MANIFEST_NAME) && Words("\n") == []
  {
    var n := MANIFEST_NAME;
    assert n[0] == 'm' && n[1] == 'a' && n[2] == 'n' && n[3] == 'i' && n[4] == 'f' && n[5] == 'e' && n[6] == 's'
        && n[7] == 't' && n[8] == '.' && n[9] == 'j' && n[10] == 's' && n[11] == 'o' && n[12] == 'n' && |n| == 13;
    assert "\n"[1..] == "";
  }

  /** The checksum file written for a digest is read back as the digest and the manifest's name. */
  lemma ChecksumFileReadsBack(digest: Digest)
    requires IsDigest(digest)
    ensures Ascii(ChecksumFile(digest)) == Some(ChecksumLine(digest))
    ensures Words(ChecksumLine(digest)) == [digest, MANIFEST_NAME]
  {
    hide Words;
    var named := MANIFEST_NAME + "\n";
    assert Ascii(ChecksumFile(digest)).value == ChecksumLine(digest);
    assert ChecksumLine(digest) == digest + ([' '] + ([' '] + named));
    ManifestNameIsWord();
    OneWord(MANIFEST_NAME, "\n");
    SkipSpace(named);
    SkipSpace([' '] + named);
    OneWord(digest, [' '] + ([' '] + named));
  }

  // ---- Which directories are accepted ----

  function DeclaredPaths(entries: seq<BackupEntry>): set<RelPath> {
    set i | 0 <= i < |entries| :: Parts(entries[i].relativePath)
  }

  predicate Findable(codec: Codec, path: RelPath) {
    forall i :: 0 <= i < |path| ==> codec.encodable(path[i])
  }

  /** The declared file is there, with its size and digest. */
  predicate EntryMatches(codec: Codec, dir: Storage, entry: BackupEntry) {
    var path := Parts(entry.relativePath);
    && Findable(codec, path)
    && path in dir
    && |dir[path]| == entry.sizeBytes
    && codec.hash(dir[path]) == entry.sha256
  }

  /** The manifest file and its checksum, as far as the manifest is decoded. */
  predicate ChecksumHolds(codec: Codec, dir: Storage, id: string) {
    && SafeBackupId(id).Some?
    && MANIFEST in dir && |dir[MANIFEST]| <= MAX_MANIFEST_BYTES && CHECKSUM in dir
    && Ascii(dir[CHECKSUM]).Some? && Words(Ascii(dir[CHECKSUM]).value) == [codec.hash(dir[MANIFEST]), MANIFEST_NAME]
  }

  /** Exactly the two manifest files and the declared entries, each as declared, with a sound
      database of the declared revision. */
  ghost predicate Accepts(codec: Codec, dir: Storage, id: string, m: BackupManifest) {
    && ChecksumHolds(codec, dir, id)
    && codec.decode(dir[MANIFEST]).Value? && Parses(codec.rt, codec.decode(dir[MANIFEST]).result, m)
    && m.backupId == id
    && (forall i :: 0 <= i < |m.entries| ==> EntryMatches(codec, dir, m.entries[i]))
    && dir.Keys == {MANIFEST, CHECKSUM} + DeclaredPaths(m.entries)
    && DATABASE_PATH in dir && codec.integrity(dir[DATABASE_PATH])
    && codec.revision(dir[DATABASE_PATH]) == Some(m.databaseRevision)
  }

  /** Reading the checksum file as ASCII is one step whose error nobody expects. */
  predicate ChecksumIsUnreadable(dir: Storage, id: string) {
    && SafeBackupId(id).Some?
    && MANIFEST in dir && |dir[MANIFEST]| <= MAX_MANIFEST_BYTES
    && CHECKSUM in dir && Ascii(dir[CHECKSUM]) == None
  }

  /** Looking up the first declared file that does not match fails on its name. */
  ghost predicate LookupEscapesAt(codec: Codec, dir: Storage, entries: seq<BackupEntry>, i: nat) {
    && i < |entries|
    && (forall j :: 0 <= j < i ==> EntryMatches(codec, dir, entries[j]))
    && !Findable(codec, Parts(entries[i].relativePath))
  }

  ghost predicate LookupEscapes(codec: Codec, dir: Storage, entries: seq<BackupEntry>) {
    exists i: nat :: LookupEscapesAt(codec, dir, entries, i)
  }

  ghost predicate ContentEscapes(codec: Codec, dir: Storage, id: string, raw: Json) {
    || ParseEscapes(codec.rt, raw)
    || exists m :: Parses(codec.rt, raw, m) && m.backupId == id && LookupEscapes(codec, dir, m.entries)
  }

  /** When verification ends in an error other than the two it is expected to raise: the checksum
      file is not ASCII; or it holds, and then the JSON text cannot be loaded in an unexpected way, a
      size or the time of the manifest overflows, or the name of a declared file cannot be encoded. */
  ghost predicate Escapes(codec: Codec, dir: Storage, id: string) {
    || ChecksumIsUnreadable(dir, id)
    || (&& ChecksumHolds(codec, dir, id)
        && match codec.decode(dir[MANIFEST])
           case Escaping => true
           case Invalid => false
           case Value(raw) => ContentEscapes(codec, dir, id, raw))
  }

  /** A directory whose checksum file holds a byte that is not ASCII stops verification in this way. */
  lemma NonAsciiChecksumEscapes(codec: Codec, id: string)
    requires IsBackupId(id)
    ensures Escapes(codec, map[MANIFEST := [], CHECKSUM := [0x80]], id)
  {
    BackupIdIsStripped(id);
    assert MANIFEST[0] != CHECKSUM[0] by { TopNames(); }
  }

  /** _verify_directory */
  method VerifyDirectory(codec: Codec, dir: Storage, id: string) returns (verdict: Verdict)
    ensures verdict.Accepted? ==> exists m :: Accepts(codec, dir, id, m) && verdict.report == ReportOf(m)
    ensures !verdict.Accepted? ==> forall m :: !Accepts(codec, dir, id, m)
    ensures verdict == Escaped <==> Escapes(codec, dir, id)
  {
    hide SafeBackupId, Words, Ascii, Parses, EntryMatches, ParseEscapes, LookupEscapes;
    if SafeBackupId(id) == None {
      return Refused;
    }
    if MANIFEST !in dir || |dir[MANIFEST]| > MAX_MANIFEST_BYTES || CHECKSUM !in dir {
      return Refused;
    }
    var text := Ascii(dir[CHECKSUM]);
    if text == None {
      return Escaped;
    }
    var parts := Words(text.value);
    if |parts| != 2 || parts[1] != MANIFEST_NAME {
      return Refused;
    }
    if parts[0] != codec.hash(dir[MANIFEST]) {
      return Refused;
    }
    assert parts == [codec.hash(dir[MANIFEST]), MANIFEST_NAME];
    match codec.decode(dir[MANIFEST]) {
      case Invalid => verdict := Refused;
      case Escaping => verdict := Escaped;
      case Value(raw) => verdict := VerifyContent(codec, dir, id, raw);
    }
  }

  /** What follows the checksum. */
  method VerifyContent(codec: Codec, dir: Storage, id: string, raw: Json) returns (verdict: Verdict)
    requires ChecksumHolds(codec, dir, id) && codec.decode(dir[MANIFEST]) == Value(raw)
    ensures verdict.Accepted? ==> exists m :: Accepts(codec, dir, id, m) && verdict.report == ReportOf(m)
    ensures !verdict.Accepted? ==> forall m :: !Accepts(codec, dir, id, m)
    ensures verdict == Escaped <==> ContentEscapes(codec, dir, id, raw)
  {
    hide ChecksumHolds, Parses, EntryMatches, ParseEscapes, DeclaredPaths;
    var parsed := ParseManifest(codec.rt, raw);
    match parsed {
      case Invalid =>
        return Refused;
      case Escaping =>
        return Escaped;
      case Value(m) =>
        OneManifest(codec.rt, raw, m);
        if m.backupId != id {
          return Refused;
        }
        var expected, comparison := CompareEntries(codec, dir, m.entries);
        if comparison == Unfindable {
          return Escaped;
        }
        if comparison == Differs || dir.Keys != expected || DATABASE_PATH !in dir || !codec.integrity(dir[DATABASE_PATH]) {
          return Refused;
        }
        var revision := codec.revision(dir[DATABASE_PATH]);
        if revision != Some(m.databaseRevision) {
          return Refused;
        }
        assert Accepts(codec, dir, id, m);
        verdict := Accepted(ReportOf(m));
    }
  }

  lemma OneManifest(rt: Runtime, raw: Json, m: BackupManifest)
    requires Parses(rt, raw, m)
    ensures forall n :: Parses(rt, raw, n) ==> n == m
  {
    hide Parses;
    forall n | Parses(rt, raw, n)
      ensures n == m
    {
      ParsingIsFunctional(rt, raw, m, n);
    }
  }

  /** What is accepted stops no verification. */
  lemma AcceptedDoesNotEscape(codec: Codec, dir: Storage, id: string, m: BackupManifest)
    requires Accepts(codec, dir, id, m)
    ensures !Escapes(codec, dir, id)
  {
    hide IsParsedFrom, EntryMatches, Findable, SafeBackupId, Ascii, HasPath;
    var raw := codec.decode(dir[MANIFEST]).result;
    OneManifest(codec.rt, raw, m);
    ParsedDoesNotEscape(codec.rt, raw.fields["entries"].items, m.entries);
    forall i: nat | i < |m.entries|
      ensures Findable(codec, Parts(m.entries[i].relativePath))
    {
      MatchedIsFindable(codec, dir, m.entries[i]);
    }
  }

  lemma MatchedIsFindable(codec: Codec, dir: Storage, entry: BackupEntry)
    requires EntryMatches(codec, dir, entry)
    ensures Findable(codec, Parts(entry.relativePath))
  {
  }

  lemma ParsedDoesNotEscape(rt: Runtime, items: seq<Json>, entries: seq<BackupEntry>)
    requires IsParsedFrom(rt, items, entries)
    ensures !EntriesEscape(rt, items)
  {
    hide ParseEntry, HasPath;
    StandsSoFar(rt, items, entries);
  }

  datatype Comparison = Matches | Differs | Unfindable

  /** The loop over the declared entries: the files the directory should hold, unless one of them
      is missing or differs, or its name cannot be looked up. */
  method CompareEntries(codec: Codec, dir: Storage, entries: seq<BackupEntry>) returns (expected: set<RelPath>, comparison: Comparison)
    ensures comparison == Matches <==> forall i :: 0 <= i < |entries| ==> EntryMatches(codec, dir, entries[i])
    ensures comparison == Unfindable <==> LookupEscapes(codec, dir, entries)
    ensures comparison == Matches ==> expected == {MANIFEST, CHECKSUM} + DeclaredPaths(entries)
  {
    hide Findable, Parts;
    expected := {MANIFEST, CHECKSUM};
    for i := 0 to |entries|
      invariant forall j :: 0 <= j < i ==> EntryMatches(codec, dir, entries[j])
      invariant expected == {MANIFEST, CHECKSUM} + set j | 0 <= j < i :: Parts(entries[j].relativePath)
    {
      var path := Parts(entries[i].relativePath);
      if !Findable(codec, path) {
        assert LookupEscapesAt(codec, dir, entries, i);
        return expected, Unfindable;
      }
      if path !in dir || |dir[path]| != entries[i].sizeBytes || codec.hash(dir[path]) != entries[i].sha256 {
        return expected, Differs;
      }
      expected := expected + {path};
    }
    comparison := Matches;
  }

  // ---- What a backup holds ----

  /** Files placed below a top directory. */
  function Below(top: string, storage: Storage): Storage {
    map path | path in (set p | p in storage :: [top] + p) :: storage[path[1..]]
  }

  /** _populate_backup: the database copy, the storage files and the configuration templates. */
  function BackupFiles(database: Bytes, storage: Storage, config: Storage): Storage {
    map[DATABASE_PATH := database] + Below("storage", storage) + Below("config", config)
  }

  function DatabaseEntry(hash: Hash, database: Bytes): BackupEntry {
    BackupEntry(DATABASE_TEXT, |database|, hash(database))
  }

  /** _write_manifest: the manifest and its checksum join the files. */
  function Written(codec: Codec, files: Storage, m: BackupManifest): Storage
    requires (forall b :: IsDigest(codec.hash(b))) && Payload(codec, m).Some?
  {
    var payload := Payload(codec, m).value;
    files[MANIFEST := payload][CHECKSUM := ChecksumFile(codec.hash(payload))]
  }

  /** The storage files of a backup, at their own paths. */
  function StorageOf(dir: Storage): Storage {
    map path | path in (set p | p in dir && |p| > 0 && p[0] == "storage" :: p[1..]) && ["storage"] + path in dir :: dir[["storage"] + path]
  }

  lemma BelowAt(top: string, storage: Storage)
    ensures forall path :: path in Below(top, storage) <==> path != [] && path[0] == top && path[1..] in storage
    ensures forall path :: path in storage ==> [top] + path in Below(top, storage) && Below(top, storage)[[top] + path] == storage[path]
  {
    forall path: RelPath | path != [] && path[0] == top
      ensures path == [top] + path[1..]
    {
    }
    forall path: RelPath
      ensures ([top] + path)[1..] == path
    {
    }
  }

  /** No two of the top-level names of a backup are the same. */
  lemma TopNames()
    ensures |"storage"| == 7 && |"config"| == 6 && |DATABASE_PATH[0]| == 8 && |MANIFEST[0]| == 13 && |CHECKSUM[0]| == 15
  {
  }

  lemma DatabaseText()
    ensures Posix(DATABASE_PATH) == DATABASE_TEXT && IsSafePath(DATABASE_PATH)
  {
    assert DATABASE_PATH[1..] == ["software-hub.sqlite3"];
    assert Posix(DATABASE_PATH) == "database" + "/" + "software-hub.sqlite3";
    DatabaseNames();
  }

  lemma DatabaseNames()
    ensures forall i :: 0 <= i < 2 ==> IsPart(DATABASE_PATH[i]) && DATABASE_PATH[i] != ".." && !HasForbiddenCharacter(DATABASE_PATH[i])
  {
    var a, b := "database", "software-hub.sqlite3";
    assert |a| == 8 && |b| == 20;
    assert forall i :: 0 <= i < |a| ==> 'a' <= a[i] <= 'z' by {
      assert a[0] == 'd' && a[1] == 'a' && a[2] == 't' && a[3] == 'a' && a[4] == 'b' && a[5] == 'a' && a[6] == 's' && a[7] == 'e';
    }
    assert forall i :: 0 <= i < |b| ==> '-' == b[i] || '.' == b[i] || '3' == b[i] || 'a' <= b[i] <= 'z' by {
      assert b[0] == 's' && b[1] == 'o' && b[2] == 'f' && b[3] == 't' && b[4] == 'w' && b[5] == 'a' && b[6] == 'r'
          && b[7] == 'e' && b[8] == '-' && b[9] == 'h' && b[10] == 'u' && b[11] == 'b' && b[12] == '.' && b[13] == 's'
          && b[14] == 'q' && b[15] == 'l' && b[16] == 'i' && b[17] == 't' && b[18] == 'e' && b[19] == '3';
    }
  }

  lemma InBackup(codec: Codec, database: Bytes, storage: Storage, config: Storage, m: BackupManifest, path: RelPath)
    requires (forall b :: IsDigest(codec.hash(b))) && Payload(codec, m).Some?
    ensures var dir := Written(codec, BackupFiles(database, storage, config), m);
            && (["storage"] + path in dir <==> path in storage)
            && (path in storage ==> dir[["storage"] + path] == storage[path])
  {
    hide Below, ToJson, ChecksumFile;
    TopNames();
    BelowAt("storage", storage);
    BelowAt("config", config);
    var full := ["storage"] + path;
    assert full[1..] == path && full[0] == "storage" && full != [];
  }

  /** What a backup stores of the storage is what is read back from it. */
  lemma StorageReadsBack(codec: Codec, database: Bytes, storage: Storage, config: Storage, m: BackupManifest)
    requires (forall b :: IsDigest(codec.hash(b))) && Payload(codec, m).Some?
    ensures StorageOf(Written(codec, BackupFiles(database, storage, config), m)) == storage
  {
    hide Written, BackupFiles;
    var dir := Written(codec, BackupFiles(database, storage, config), m);
    StorageOfMembers(dir);
    forall path {
      InBackup(codec, database, storage, config, m, path);
    }
  }

  lemma StorageOfMembers(dir: Storage)
    ensures forall path :: path in StorageOf(dir) <==> ["storage"] + path in dir
  {
    forall path: RelPath
      ensures (["storage"] + path)[1..] == path
    {
    }
  }

  // ---- A backup just written is accepted ----

  /** The entries declare exactly the files, each with its size and digest. */
  ghost predicate Declares(hash: Hash, entries: seq<BackupEntry>, files: Storage) {
    && PathsDistinct(entries)
    && (forall i :: 0 <= i < |entries| ==> IsEntryOf(hash, entries[i], files))
    && forall path :: path in files ==> HasPath(entries, Posix(path))
  }

  ghost predicate IsEntryOf(hash: Hash, entry: BackupEntry, files: Storage) {
    exists path :: path in files && entry == BackupEntry(Posix(path), |files[path]|, hash(files[path]))
  }

  ghost predicate AllSafe(files: Storage) {
    forall path :: path in files ==> IsSafePath(path)
  }

  /** Every file can be looked up again by its name. */
  ghost predicate AllFindable(codec: Codec, files: Storage) {
    forall path :: path in files ==> Findable(codec, path)
  }

  /** The header of a manifest, its text, and its size. */
  ghost predicate FitsPatterns(codec: Codec, m: BackupManifest) {
    HeaderFits(m) && Payload(codec, m).Some? && |Payload(codec, m).value| <= MAX_MANIFEST_BYTES
  }

  lemma DeclaredIsWellFormed(codec: Codec, files: Storage, m: BackupManifest)
    requires Declares(codec.hash, m.entries, files) && AllSafe(files) && HeaderFits(m)
    requires DATABASE_PATH in files
    ensures WellFormedManifest(m)
  {
    DatabaseText();
    forall i | 0 <= i < |m.entries|
      ensures IsNormalised(m.entries[i].relativePath) && IsDigest(m.entries[i].sha256)
    {
      assert IsEntryOf(codec.hash, m.entries[i], files);
    }
  }

  lemma DeclaredPathsAreTheFiles(hash: Hash, entries: seq<BackupEntry>, files: Storage)
    requires Declares(hash, entries, files) && AllSafe(files)
    ensures DeclaredPaths(entries) == files.Keys
    ensures forall i :: 0 <= i < |entries| ==>
              var path := Parts(entries[i].relativePath);
              path in files && |files[path]| == entries[i].sizeBytes && hash(files[path]) == entries[i].sha256
  {
    forall path | path in files
      ensures Parts(Posix(path)) == path
    {
      PartsOfText(path);
    }
    forall i | 0 <= i < |entries|
      ensures Parts(entries[i].relativePath) in files
      ensures var path := Parts(entries[i].relativePath);
              |files[path]| == entries[i].sizeBytes && hash(files[path]) == entries[i].sha256
    {
      assert IsEntryOf(hash, entries[i], files);
    }
    forall path | path in files
      ensures path in DeclaredPaths(entries)
    {
      assert HasPath(entries, Posix(path));
    }
  }

  /** Whatever the files, if their paths are safe and the manifest is not too large, the directory
      written for them is accepted. The database check and revision are SQLite's answer. */
  lemma WrittenBackupIsAccepted(codec: Codec, files: Storage, m: BackupManifest)
    requires Sound(codec) && Declares(codec.hash, m.entries, files) && AllSafe(files) && AllFindable(codec, files)
    requires FitsPatterns(codec, m)
    requires DATABASE_PATH in files && MANIFEST !in files && CHECKSUM !in files
    requires codec.integrity(files[DATABASE_PATH]) && codec.revision(files[DATABASE_PATH]) == Some(m.databaseRevision)
    ensures Accepts(codec, Written(codec, files, m), m.backupId, m)
  {
    hide IsRevision, IsBackupId, ToJson, Parses, ChecksumFile, Words, Ascii, SafeBackupId, Declares, AllSafe, WellFormedManifest;
    var dir := Written(codec, files, m);
    TopNames();
    BackupIdIsStripped(m.backupId);
    DeclaredIsWellFormed(codec, files, m);
    ManifestRoundTrip(codec.rt, m);
    ChecksumFileReadsBack(codec.hash(dir[MANIFEST]));
    DeclaredPathsAreTheFiles(codec.hash, m.entries, files);
    assert MANIFEST != CHECKSUM && DATABASE_PATH != MANIFEST && DATABASE_PATH != CHECKSUM;
    assert dir.Keys == {MANIFEST, CHECKSUM} + DeclaredPaths(m.entries);
    forall i | 0 <= i < |m.entries|
      ensures EntryMatches(codec, dir, m.entries[i])
    {
      var path := Parts(m.entries[i].relativePath);
      assert path in files && path != MANIFEST && path != CHECKSUM;
    }
  }

  // ---- Sorting the entries changes nothing ----

  lemma {:induction false} DistinctOccurOnce(entries: seq<BackupEntry>, entry: BackupEntry)
    requires PathsDistinct(entries)
    ensures multiset(entries)[entry] <= 1
  {
    if entries != [] {
      var rest := entries[1..];
      assert entries == [entries[0]] + rest;
      DistinctOccurOnce(rest, entry);
    }
  }

  lemma TwoOccurrences(entries: seq<BackupEntry>, i: nat, j: nat)
    requires i < j < |entries| && entries[i] == entries[j]
    ensures multiset(entries)[entries[i]] >= 2
  {
    assert entries == entries[..j] + entries[j..];
    assert entries[i] in entries[..j] && entries[j] in entries[j..];
  }

  lemma ReorderedEntriesDeclare(hash: Hash, entries: seq<BackupEntry>, sorted: seq<BackupEntry>, files: Storage)
    requires Declares(hash, entries, files) && multiset(sorted) == multiset(entries)
    ensures Declares(hash, sorted, files)
  {
    hide IsEntryOf;
    forall i | 0 <= i < |sorted|
      ensures sorted[i] in entries
    {
      assert sorted[i] in multiset(sorted);
    }
    forall i, j | 0 <= i < j < |sorted|
      ensures sorted[i].relativePath != sorted[j].relativePath
    {
      assert sorted[i] in entries && sorted[j] in entries;
      if sorted[i] == sorted[j] {
        TwoOccurrences(sorted, i, j);
        DistinctOccurOnce(entries, sorted[i]);
      }
    }
    forall path | path in files
      ensures HasPath(sorted, Posix(path))
    {
      var k :| 0 <= k < |entries| && entries[k].relativePath == Posix(path);
      assert entries[k] in multiset(sorted);
      var i :| 0 <= i < |sorted| && sorted[i] == entries[k];
      assert sorted[i].relativePath == Posix(path);
    }
  }
}
