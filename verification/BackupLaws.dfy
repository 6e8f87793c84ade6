/** Laws of backups that do not depend on how they are made and checked: what an accepted directory
    can hold, what damage is noticed, and what a backup holds of the installation
    (`app/services/backup_service.py`). */
module BackupLaws {
  import opened Prelude
  import opened LikeSearch
  import opened BackupPaths
  import opened Manifest
  import opened BackupTree
  import opened BackupVerify
  import opened Backups

  // ---- Acceptance is exact ----

  /** What acceptance says of a directory: its name, its two manifest files, the database, and
      nothing in it but what is declared. */
  lemma AcceptedHolds(codec: Codec, dir: Storage, id: string, m: BackupManifest)
    requires Accepts(codec, dir, id, m)
    ensures IsBackupId(id) && m.backupId == id
    ensures MANIFEST in dir && |dir[MANIFEST]| <= 4 * 1024 * 1024 && CHECKSUM in dir
    ensures var words := Ascii(dir[CHECKSUM]);
            words.Some? && Words(words.value) == [codec.hash(dir[MANIFEST]), "manifest.json"]
    ensures codec.decode(dir[MANIFEST]).Value?
    ensures DATABASE_PATH in dir && codec.integrity(dir[DATABASE_PATH]) && codec.revision(dir[DATABASE_PATH]) == Some(m.databaseRevision)
    ensures WellFormedManifest(m)
    ensures forall i :: 0 <= i < |m.entries| ==>
              var path := Parts(m.entries[i].relativePath);
              && path in dir && |dir[path]| == m.entries[i].sizeBytes && codec.hash(dir[path]) == m.entries[i].sha256
    ensures forall path :: path in dir ==>
              path == MANIFEST || path == CHECKSUM || exists i :: 0 <= i < |m.entries| && Parts(m.entries[i].relativePath) == path
  {
    hide IsBackupId, Ascii, Words, Parses, WellFormedManifest, Parts;
    AcceptedIsWellFormed(codec.rt, codec.decode(dir[MANIFEST]).result, m);
    WellFormedNames(m);
    BackupIdIsStripped(id);
  }

  lemma WellFormedNames(m: BackupManifest)
    requires WellFormedManifest(m)
    ensures IsBackupId(m.backupId)
  {
  }

  /** A directory is accepted under one name only, with one manifest. */
  lemma AcceptedOnce(codec: Codec, dir: Storage, id: string, m: BackupManifest, other: string, n: BackupManifest)
    requires Accepts(codec, dir, id, m) && Accepts(codec, dir, other, n)
    ensures id == other && m == n
  {
    hide ChecksumHolds, Parses, EntryMatches;
    ParsingIsFunctional(codec.rt, codec.decode(dir[MANIFEST]).result, m, n);
  }

  /** Two accepted directories with the same manifest file hold the same files, alike in size and
      digest, but for the white space of the checksum file. */
  lemma SameManifestSameFiles(codec: Codec, dir: Storage, id: string, m: BackupManifest, other: Storage, name: string, n: BackupManifest)
    requires Accepts(codec, dir, id, m) && Accepts(codec, other, name, n) && dir[MANIFEST] == other[MANIFEST]
    ensures m == n && dir.Keys == other.Keys
    ensures forall path :: path in dir && path != CHECKSUM ==>
              |dir[path]| == |other[path]| && codec.hash(dir[path]) == codec.hash(other[path])
  {
    hide ChecksumHolds, Parses, Parts;
    ParsingIsFunctional(codec.rt, codec.decode(dir[MANIFEST]).result, m, n);
    forall path | path in dir && path != CHECKSUM && path != MANIFEST
      ensures |dir[path]| == |other[path]| && codec.hash(dir[path]) == codec.hash(other[path])
    {
      assert path in DeclaredPaths(m.entries);
      var i :| 0 <= i < |m.entries| && Parts(m.entries[i].relativePath) == path;
      assert EntryMatches(codec, dir, m.entries[i]) && EntryMatches(codec, other, n.entries[i]);
    }
  }

  /** Damage to an accepted backup: a file lost, added, cut, or altered so that its digest shows it. */
  ghost predicate IsDamaged(codec: Codec, before: Storage, after: Storage) {
    || before.Keys != after.Keys
    || exists path :: path in before && path != CHECKSUM
                      && (|before[path]| != |after[path]| || codec.hash(before[path]) != codec.hash(after[path]))
  }

  /** Any damage beside the manifest is noticed, whatever the checksum file says afterwards. */
  lemma DamageIsNoticed(codec: Codec, dir: Storage, id: string, report: BackupReport, after: Storage, found: BackupReport)
    requires IsValid(codec, dir, id, report) && IsDamaged(codec, dir, after)
    requires MANIFEST in after && after[MANIFEST] == dir[MANIFEST]
    ensures !IsValid(codec, after, id, found)
  {
    hide Accepts;
    var m :| Accepts(codec, dir, id, m) && report == ReportOf(m);
    if n :| Accepts(codec, after, id, n) && found == ReportOf(n) {
      SameManifestSameFiles(codec, dir, id, m, after, id, n);
    }
  }

  /** A manifest whose digest shows a change is noticed as long as the checksum file is as it was. */
  lemma ChangedManifestIsNoticed(codec: Codec, dir: Storage, id: string, report: BackupReport, after: Storage, found: BackupReport)
    requires IsValid(codec, dir, id, report) && MANIFEST in after && codec.hash(after[MANIFEST]) != codec.hash(dir[MANIFEST])
    requires CHECKSUM in after && after[CHECKSUM] == dir[CHECKSUM]
    ensures !IsValid(codec, after, id, found)
  {
    hide Accepts;
    var m :| Accepts(codec, dir, id, m) && report == ReportOf(m);
    AcceptedHolds(codec, dir, id, m);
    if n :| Accepts(codec, after, id, n) && found == ReportOf(n) {
      AcceptedHolds(codec, after, id, n);
    }
  }

  // ---- What stops a verification ----

  /** No directory stops verification but one under the text of an identifier, with a manifest within
      the limit and a checksum file; and if that file is ASCII it names the manifest and its digest. */
  lemma EscapesOnlyWhen(codec: Codec, dir: Storage, id: string)
    requires Escapes(codec, dir, id)
    ensures SafeBackupId(id).Some? && MANIFEST in dir && |dir[MANIFEST]| <= 4 * 1024 * 1024 && CHECKSUM in dir
    ensures var text := Ascii(dir[CHECKSUM]);
            text.Some? ==> Words(text.value) == [codec.hash(dir[MANIFEST]), "manifest.json"] && codec.decode(dir[MANIFEST]) != Invalid
  {
    hide SafeBackupId, Ascii, Words, ContentEscapes;
  }

  /** A checksum file with a byte beyond ASCII always stops it. */
  lemma UnreadableChecksumsEscape(codec: Codec, dir: Storage, id: string, i: nat)
    requires SafeBackupId(id).Some? && MANIFEST in dir && |dir[MANIFEST]| <= 4 * 1024 * 1024
    requires CHECKSUM in dir && i < |dir[CHECKSUM]| && dir[CHECKSUM][i] >= 128
    ensures Escapes(codec, dir, id)
  {
    hide SafeBackupId;
  }

  ghost predicate Stands(codec: Codec, dir: Storage, entry: BackupEntry) {
    var path := Parts(entry.relativePath);
    && (forall k :: 0 <= k < |path| ==> codec.encodable(path[k]))
    && path in dir && |dir[path]| == entry.sizeBytes && codec.hash(dir[path]) == entry.sha256
  }

  /** With an acceptable manifest, exactly a declared name that cannot be encoded stops verification, and
      only if the manifest is of that identifier and all entries before that one are as declared:
      otherwise the directory is refused before the name is looked up. */
  lemma UnencodableNamesEscapeExactly(codec: Codec, dir: Storage, id: string, m: BackupManifest)
    requires ChecksumHolds(codec, dir, id)
    requires codec.decode(dir[MANIFEST]).Value? && Parses(codec.rt, codec.decode(dir[MANIFEST]).result, m)
    ensures Escapes(codec, dir, id)
            <==> && m.backupId == id
                 && exists i :: 0 <= i < |m.entries|
                                && (exists k :: 0 <= k < |Parts(m.entries[i].relativePath)|
                                                && !codec.encodable(Parts(m.entries[i].relativePath)[k]))
                                && forall j :: 0 <= j < i ==> Stands(codec, dir, m.entries[j])
  {
    hide Parts, SafeBackupId, Ascii, Words, Parses, ParseEscapes;
    var raw := codec.decode(dir[MANIFEST]).result;
    AcceptableIsReadable(codec.rt, raw, m);
    OneManifest(codec.rt, raw, m);
    assert Escapes(codec, dir, id) <==> m.backupId == id && LookupEscapes(codec, dir, m.entries);
    forall j | 0 <= j < |m.entries|
      ensures EntryMatches(codec, dir, m.entries[j]) <==> Stands(codec, dir, m.entries[j])
    {
    }
    forall i: nat | i < |m.entries|
      ensures LookupEscapesAt(codec, dir, m.entries, i)
              <==> && (exists k :: 0 <= k < |Parts(m.entries[i].relativePath)| && !codec.encodable(Parts(m.entries[i].relativePath)[k]))
                   && forall j :: 0 <= j < i ==> Stands(codec, dir, m.entries[j])
    {
    }
  }

  lemma AcceptableIsReadable(rt: Runtime, raw: Json, m: BackupManifest)
    requires Parses(rt, raw, m)
    ensures !ParseEscapes(rt, raw)
  {
    hide IsParsedFrom, SafeBackupId, HasPath, IsRevision, IsOne;
    ParsedDoesNotEscape(rt, raw.fields["entries"].items, m.entries);
  }

  /** A manifest whose reading overflows stops verification, and so does text that fails to load in an
      unexpected way. */
  lemma UnreadableManifestsEscape(codec: Codec, dir: Storage, id: string)
    requires ChecksumHolds(codec, dir, id)
    requires var loaded := codec.decode(dir[MANIFEST]);
             loaded == Escaping || (loaded.Value? && ParseEscapes(codec.rt, loaded.result))
    ensures Escapes(codec, dir, id)
  {
  }

  /** An infinite size in the first entry overflows, whatever follows. */
  lemma InfiniteSizeOverflows(rt: Runtime, fields: map<string, Json>, negative: bool)
    requires Lawful(rt) && HeaderStands(rt, fields) && fields["entries"].items != []
    requires var item := fields["entries"].items[0];
             EntryPath(rt, item).Some? && "size_bytes" in item.fields && item.fields["size_bytes"] == JFloat(Infinite(negative))
    ensures ParseEscapes(rt, JObject(fields))
  {
    hide EntryPath, EntriesEscape, SafeBackupId, IsRevision, IsOne;
    var items := fields["entries"].items;
    InfiniteSizeEscapes(rt, items[0], items[1..], negative);
    assert items == [items[0]] + items[1..];
  }

  /** A time that leaves the calendar is found out last: it overflows if and only if all entries are
      acceptable and the database is among them; otherwise the manifest is refused, unless an entry
      overflows before. */
  lemma TimeOverflowsLast(rt: Runtime, fields: map<string, Json>)
    requires HeaderStands(rt, fields) && StampOf(rt, fields) == OutOfCalendar
    ensures var items := fields["entries"].items;
            && (forall entries :: IsParsedFrom(rt, items, entries) ==>
                  (ParseEscapes(rt, JObject(fields)) <==> HasPath(entries, DATABASE_TEXT)))
            && ((forall entries :: !IsParsedFrom(rt, items, entries)) ==> (ParseEscapes(rt, JObject(fields)) <==> EntriesEscape(rt, items)))
  {
    hide IsParsedFrom, HasPath, EntriesEscape;
    var items := fields["entries"].items;
    forall entries | IsParsedFrom(rt, items, entries)
      ensures ParseEscapes(rt, JObject(fields)) <==> HasPath(entries, DATABASE_TEXT)
    {
      ParsedDoesNotEscape(rt, items, entries);
      forall other | IsParsedFrom(rt, items, other)
        ensures other == entries
      {
        EntriesAreUnique(rt, items, entries, other);
      }
    }
  }

  // ---- ASCII ----

  /** What is ASCII text is written and read back unchanged; what is not is never read. */
  lemma AsciiReadsBack(s: string, data: Bytes)
    ensures IsAscii(s) ==> Ascii(ToBytes(s)) == Some(s)
    ensures Ascii(data).Some? ==> IsAscii(Ascii(data).value) && ToBytes(Ascii(data).value) == data
  {
    if IsAscii(s) {
      assert Ascii(ToBytes(s)).value == s;
    }
  }

  // ---- What a report counts ----

  lemma NormalisedIsRead(path: string)
    requires IsNormalised(path)
    ensures Posix(Parts(path)) == path
  {
    var parts :| IsSafePath(parts) && path == Posix(parts);
    PartsOfText(parts);
  }

  lemma {:induction false} ListedSizes(dir: Storage, entries: seq<BackupEntry>)
    requires PathsDistinct(entries) && forall i :: 0 <= i < |entries| ==> IsNormalised(entries[i].relativePath)
    requires forall i :: 0 <= i < |entries| ==>
               Parts(entries[i].relativePath) in dir && |dir[Parts(entries[i].relativePath)]| == entries[i].sizeBytes
    ensures DeclaredPaths(entries) <= dir.Keys && |DeclaredPaths(entries)| == |entries|
    ensures Sizes(dir, DeclaredPaths(entries)) == TotalBytes(entries)
    decreases |entries|
  {
    hide Parts, IsNormalised, TotalBytes, Sizes;
    if entries == [] {
      NoBytes(dir);
    } else {
      var init, last := entries[..|entries| - 1], entries[|entries| - 1];
      var path := Parts(last.relativePath);
      ListedSizes(dir, init);
      NormalisedIsRead(last.relativePath);
      forall i | 0 <= i < |init|
        ensures Parts(init[i].relativePath) != path
      {
        NormalisedIsRead(entries[i].relativePath);
      }
      assert entries == init + [last];
      TotalOfOneMore(init, last);
      assert DeclaredPaths(entries) == DeclaredPaths(init) + {path};
      SizesWithout(dir, DeclaredPaths(entries), path);
      assert DeclaredPaths(entries) - {path} == DeclaredPaths(init);
    }
  }

  lemma NoBytes(dir: Storage)
    ensures TotalBytes([]) == 0 == Sizes(dir, {})
  {
  }

  /** The report of an accepted directory counts its files and their bytes, the two manifest files
      aside. (A manifest cannot well declare itself, as its own digest would have to stand in it.) */
  lemma ReportsCountTheFiles(codec: Codec, dir: Storage, id: string, m: BackupManifest)
    requires Accepts(codec, dir, id, m) && MANIFEST !in DeclaredPaths(m.entries) && CHECKSUM !in DeclaredPaths(m.entries)
    ensures var report := ReportOf(m);
            && report.backupId == id
            && |dir| == report.fileCount + 2
            && Sizes(dir, dir.Keys - {MANIFEST, CHECKSUM}) == report.totalBytes
            && codec.revision(dir[DATABASE_PATH]) == Some(report.revision)
  {
    hide Parts, Parses, ChecksumHolds;
    AcceptedHolds(codec, dir, id, m);
    ListedSizes(dir, m.entries);
    assert dir.Keys - {MANIFEST, CHECKSUM} == DeclaredPaths(m.entries);
    TopNames();
    assert |{MANIFEST, CHECKSUM}| == 2;
    assert |dir.Keys| == |DeclaredPaths(m.entries)| + |{MANIFEST, CHECKSUM}|;
  }

  /** The report of a new backup: its identifier and time, the number of its files and of their bytes,
      and the revision of the database copied. */
  lemma NewBackupsAreReported(codec: Codec, live: Live, temporary: RelPath, id: string, now: int, version: string, m: BackupManifest)
    requires IsDraft(codec, live, temporary, id, now, version, m) && AllSafe(Contents(live, temporary))
    ensures var files := Contents(live, temporary);
            ReportOf(m) == BackupReport(id, now, |files|, Volume(files), codec.revision(live.snapshot.value).value)
    ensures m.appVersion == version
  {
    hide Contents, Parts, Posix, TotalBytes, Sizes;
    var files := Contents(live, temporary);
    DeclaredPathsAreTheFiles(codec.hash, m.entries, files);
    forall i | 0 <= i < |m.entries|
      ensures IsNormalised(m.entries[i].relativePath)
    {
      assert IsEntryOf(codec.hash, m.entries[i], files);
    }
    ListedSizes(files, m.entries);
    assert |files| == |files.Keys|;
  }

  // ---- What a backup holds ----

  /** A backup holds the database, the storage files that are not at or below the temporary root, and
      the configuration templates, each unchanged and at its place, with the two manifest files and
      nothing else. */
  lemma BackupHoldsExactly(codec: Codec, live: Live, temporary: RelPath, m: BackupManifest, id: string, dir: Storage)
    requires IsPublished(codec, live, temporary, m, id, dir)
    ensures var files, config := FilesOf(live.root.value, []), ConfigFiles(live.config);
            && DATABASE_PATH in dir && dir[DATABASE_PATH] == live.snapshot.value
            && (forall path :: path in files && !(temporary <= path) ==>
                  ["storage"] + path in dir && dir[["storage"] + path] == files[path])
            && (forall path :: path in config ==> ["config"] + path in dir && dir[["config"] + path] == config[path])
            && (forall path :: path in dir ==>
                  || path in {DATABASE_PATH, MANIFEST, CHECKSUM}
                  || (path != [] && path[0] == "storage" && path[1..] in files && !(temporary <= path[1..]))
                  || (path != [] && path[0] == "config" && path[1..] in config))
  {
    hide Accepts, Payload, FilesOf, ConfigFiles, Below, Escapes;
    var files, config := FilesOf(live.root.value, []), ConfigFiles(live.config);
    var kept := Retained(files, temporary, false);
    BelowAt("storage", kept);
    BelowAt("config", config);
    TopNames();
  }

  /** The templates of a list with distinct paths, each with its own text. */
  lemma {:induction false} TemplatesAreHeld(config: seq<(RelPath, Bytes)>, n: nat)
    requires (forall i, j :: 0 <= i < j < |config| ==> config[i].0 != config[j].0) && n < |config|
    ensures config[n].0 in ConfigFiles(config) && ConfigFiles(config)[config[n].0] == config[n].1
    decreases |config|
  {
    var last := |config| - 1;
    ConfigKeys(config);
    if n < last {
      TemplatesAreHeld(config[..last], n);
      assert config[..last][n] == config[n];
    }
  }

  // ---- Which directories a listing looks at ----

  /** Every valid backup is in the listing, and a directory whose name is not that of a backup changes
      nothing about it, nor can it stop it. */
  lemma ListingsAreComplete(codec: Codec, backups: map<string, Storage>, ranking: seq<BackupReport>, id: string, report: BackupReport)
    requires Ranks(codec, backups, ranking)
    ensures report in ranking <==> exists name :: name in backups && IsValid(codec, backups[name], name, report)
  {
    hide IsValid, IsBackupId;
    if report in ranking {
      var i :| 0 <= i < |ranking| && ranking[i] == report;
      assert IsValid(codec, backups[report.backupId], report.backupId, report);
    }
    if name :| name in backups && IsValid(codec, backups[name], name, report) {
      ValidNames(codec, backups[name], name, report);
    }
  }

  lemma ValidNames(codec: Codec, dir: Storage, id: string, report: BackupReport)
    requires IsValid(codec, dir, id, report)
    ensures IsBackupId(id)
  {
    hide Accepts, IsBackupId;
    var m :| Accepts(codec, dir, id, m) && report == ReportOf(m);
    AcceptedHolds(codec, dir, id, m);
  }

  lemma OtherDirectoriesAreIgnored(backups: map<string, Storage>, id: string, dir: Storage)
    requires !IsBackupId(id)
    ensures Recognised(backups[id := dir]) == Recognised(backups - {id}) == Recognised(backups)
  {
    hide IsBackupId;
  }
}
