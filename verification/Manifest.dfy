/** The backup manifest at the level of its JSON fields: printing and parsing
    (`app/services/backup_service.py`). */
module Manifest {
  import opened Prelude
  import opened BackupPaths
  import opened LikeSearch

  /** A binary64 number: finite ones by their exact ratio. */
  datatype Float = Ratio(numerator: int, denominator: nat) | Infinite(negative: bool) | NaN

  datatype Json =
    | JNull
    | JBool(value: bool)
    | JInt(number: int)
    | JFloat(float: Float)
    | JString(text: string)
    | JArray(items: seq<Json>)
    | JObject(fields: map<string, Json>)

  /** What a conversion does: a value, an error that the parser expects, or one that it does not. */
  datatype Parsed<+T> = Value(result: T) | Invalid | Escaping

  /** A time read from text: without a time zone, with one, or with one that takes it out of the
      calendar when it is converted to UTC. */
  datatype Stamp = Naive | Aware(utc: int) | OutOfCalendar

  /** Conversions of the Python runtime: str() and int() of a JSON value, and ISO 8601 times. */
  datatype Runtime = Runtime(str: Json -> string, toInt: Json -> Parsed<int>,
                             isoFormat: int -> string, fromIsoFormat: string -> Option<Stamp>)

  /** All that is assumed of them: a string is its own text, an integer its own value, an infinity
      overflows, and a time that was printed in UTC is read back. */
  ghost predicate Lawful(rt: Runtime) {
    && (forall s :: rt.str(JString(s)) == s)
    && (forall n :: rt.toInt(JInt(n)) == Value(n))
    && (forall negative :: rt.toInt(JFloat(Infinite(negative))) == Escaping)
    && (forall t :: rt.fromIsoFormat(rt.isoFormat(t)) == Some(Aware(t)))
  }

  datatype BackupEntry = BackupEntry(relativePath: string, sizeBytes: nat, sha256: Digest)

  datatype BackupManifest = BackupManifest(backupId: string, createdAt: int, appVersion: string,
                                           databaseRevision: string, entries: seq<BackupEntry>)

  const DATABASE_PATH: RelPath := ["database", "software-hub.sqlite3"]
  const DATABASE_TEXT := "database/software-hub.sqlite3"

  // ---- Text patterns ----

  predicate IsDigit(c: char) {
    '0' <= c <= '9'
  }

  predicate IsHexDigit(c: char) {
    '0' <= c <= '9' || 'a' <= c <= 'f'
  }

  predicate AllDigits(s: string) {
    forall i :: 0 <= i < |s| ==> IsDigit(s[i])
  }

  predicate AllHex(s: string) {
    forall i :: 0 <= i < |s| ==> IsHexDigit(s[i])
  }

  predicate IsDigest(s: string) {
    |s| == 64 && AllHex(s)
  }

  /** _BACKUP_ID_PATTERN */
  predicate IsBackupId(s: string) {
    && |s| == 51
    && s[..20] == "software-hub-backup-"
    && AllDigits(s[20..28]) && s[28] == 'T' && AllDigits(s[29..41])
    && s[41..43] == "Z-"
    && AllHex(s[43..])
  }

  /** _REVISION_PATTERN */
  predicate IsRevision(s: string) {
    1 <= |s| <= 128 && forall i :: 0 <= i < |s| ==>
      IsDigit(s[i]) || 'A' <= s[i] <= 'Z' || 'a' <= s[i] <= 'z' || s[i] == '_' || s[i] == '.' || s[i] == '-'
  }

  function LStrip(s: string): string {
    if s != "" && IsSpace(s[0]) then LStrip(s[1..]) else s
  }

  function RStrip(s: string): string {
    if s != "" && IsSpace(s[|s| - 1]) then RStrip(s[..|s| - 1]) else s
  }

  /** _safe_backup_id */
  function SafeBackupId(value: string): Option<string> {
    var candidate := RStrip(LStrip(value));
    if IsBackupId(candidate) then Some(candidate) else None
  }

  // ---- Printing ----

  function TotalBytes(entries: seq<BackupEntry>): nat {
    if entries == [] then 0 else entries[0].sizeBytes + TotalBytes(entries[1..])
  }

  function EntryToJson(entry: BackupEntry): Json {
    JObject(map["relative_path" := JString(entry.relativePath), "size_bytes" := JInt(entry.sizeBytes),
                "sha256" := JString(entry.sha256)])
  }

  /** to_dict */
  function ToJson(rt: Runtime, m: BackupManifest): Json {
    JObject(map[
      "manifest_version" := JInt(1),
      "backup_id" := JString(m.backupId),
      "created_at" := JString(rt.isoFormat(m.createdAt)),
      "app_version" := JString(m.appVersion),
      "database_revision" := JString(m.databaseRevision),
      "total_bytes" := JInt(TotalBytes(m.entries)),
      "file_count" := JInt(|m.entries|),
      "entries" := JArray(seq(|m.entries|, i requires 0 <= i < |m.entries| => EntryToJson(m.entries[i])))])
  }

  // ---- Parsing ----

  /** In Python, 1, 1.0 and True are equal. */
  predicate IsOne(value: Json) {
    match value
    case JInt(n) => n == 1
    case JBool(truth) => truth
    case JFloat(Ratio(numerator, denominator)) => numerator == denominator && denominator > 0
    case _ => false
  }

  function Get(fields: map<string, Json>, key: string, default: Json): Json {
    if key in fields then fields[key] else default
  }

  function EntryPath(rt: Runtime, item: Json): (path: Option<RelPath>)
    ensures path.Some? ==> item.JObject?
  {
    if item.JObject? then SafeRelativePath(rt.str(Get(item.fields, "relative_path", JString("")))) else None
  }

  /** Size and digest of an entry whose path stands. */
  function EntryBody(rt: Runtime, fields: map<string, Json>, path: RelPath): Parsed<BackupEntry> {
    if "size_bytes" !in fields then Invalid
    else
      match rt.toInt(fields["size_bytes"])
      case Invalid => Invalid
      case Escaping => Escaping
      case Value(size) =>
        if "sha256" !in fields then Invalid
        else
          var digest := rt.str(fields["sha256"]);
          if size < 0 || !IsDigest(digest) then Invalid else Value(BackupEntry(Posix(path), size, digest))
  }

  /** One entry, without the check for duplicates. */
  function ParseEntry(rt: Runtime, item: Json): Parsed<BackupEntry> {
    var path := EntryPath(rt, item);
    if path == None then Invalid else EntryBody(rt, item.fields, path.value)
  }

  /** The paths seen before an entry; a repeated one is refused. */
  predicate PathsDistinct(entries: seq<BackupEntry>) {
    forall i, j :: 0 <= i < j < |entries| ==> entries[i].relativePath != entries[j].relativePath
  }

  predicate HasPath(entries: seq<BackupEntry>, path: string) {
    exists i :: 0 <= i < |entries| && entries[i].relativePath == path
  }

  /** What parsing the entry list should yield. */
  predicate IsParsedFrom(rt: Runtime, items: seq<Json>, entries: seq<BackupEntry>) {
    && |entries| == |items|
    && (forall i :: 0 <= i < |items| ==> ParseEntry(rt, items[i]) == Value(entries[i]))
    && PathsDistinct(entries)
  }

  /** The first entry with an unexpected error: the entries before it stand, and its path is not
      one of theirs. */
  ghost predicate EscapesAt(rt: Runtime, items: seq<Json>, i: nat, before: seq<BackupEntry>) {
    && i < |items|
    && IsParsedFrom(rt, items[..i], before)
    && ParseEntry(rt, items[i]) == Escaping
    && !HasPath(before, Posix(EntryPath(rt, items[i]).value))
  }

  ghost predicate EntriesEscape(rt: Runtime, items: seq<Json>) {
    exists i: nat, before :: EscapesAt(rt, items, i, before)
  }

  /** The checks on the header that come before the entries. */
  predicate HeaderStands(rt: Runtime, fields: map<string, Json>) {
    && "manifest_version" in fields && IsOne(fields["manifest_version"])
    && SafeBackupId(rt.str(Get(fields, "backup_id", JString("")))).Some?
    && "created_at" in fields
    && rt.fromIsoFormat(rt.str(fields["created_at"])) !in {None, Some(Naive)}
    && IsRevision(rt.str(Get(fields, "database_revision", JString(""))))
    && "entries" in fields && fields["entries"].JArray?
  }

  function StampOf(rt: Runtime, fields: map<string, Json>): Stamp
    requires HeaderStands(rt, fields)
  {
    rt.fromIsoFormat(rt.str(fields["created_at"])).value
  }

  /** What parsing the header should yield; `entries` is filled in by the caller. */
  function ParseHeader(rt: Runtime, fields: map<string, Json>, entries: seq<BackupEntry>): Option<BackupManifest> {
    if !HeaderStands(rt, fields) then None
    else
      var version := rt.str(Get(fields, "app_version", JString("unknown")));
      match StampOf(rt, fields)
      case Aware(utc) =>
        Some(BackupManifest(SafeBackupId(rt.str(Get(fields, "backup_id", JString("")))).value, utc,
                            if |version| <= 64 then version else version[..64],
                            rt.str(Get(fields, "database_revision", JString(""))), entries))
      case _ => None
  }

  /** When a manifest is what a JSON value says, and acceptable. */
  predicate Parses(rt: Runtime, raw: Json, m: BackupManifest) {
    && raw.JObject?
    && ParseHeader(rt, raw.fields, m.entries) == Some(m)
    && IsParsedFrom(rt, raw.fields["entries"].items, m.entries)
    && HasPath(m.entries, DATABASE_TEXT)
  }

  /** When parsing ends in an error that nobody expects: an entry whose size overflows, or, after
      everything else has passed, a time that leaves the calendar in UTC. */
  ghost predicate ParseEscapes(rt: Runtime, raw: Json) {
    && raw.JObject?
    && HeaderStands(rt, raw.fields)
    && (|| EntriesEscape(rt, raw.fields["entries"].items)
        || (StampOf(rt, raw.fields) == OutOfCalendar
            && exists entries :: IsParsedFrom(rt, raw.fields["entries"].items, entries) && HasPath(entries, DATABASE_TEXT)))
  }

  /** The loop of _parse_manifest over the entries. */
  method ParseEntries(rt: Runtime, items: seq<Json>) returns (parsed: Parsed<seq<BackupEntry>>)
    ensures parsed.Value? ==> IsParsedFrom(rt, items, parsed.result)
    ensures !parsed.Value? ==> forall entries :: !IsParsedFrom(rt, items, entries)
    ensures parsed == Escaping <==> EntriesEscape(rt, items)
  {
    hide EntryPath, EntryBody, HasPath;
    var entries: seq<BackupEntry> := [];
    var seen: set<string> := {};
    for i := 0 to |items|
      invariant |entries| == i
      invariant forall j :: 0 <= j < i ==> ParseEntry(rt, items[j]) == Value(entries[j])
      invariant PathsDistinct(entries)
      invariant seen == set j | 0 <= j < i :: entries[j].relativePath
    {
      StandsSoFar(rt, items, entries);
      var path := EntryPath(rt, items[i]);
      if path == None {
        return Invalid;
      }
      NewPath(entries, seen, Posix(path.value));
      if Posix(path.value) in seen {
        RepeatedPathsAreRefused(rt, items, entries);
        return Invalid;
      }
      var entry := EntryBody(rt, items[i].fields, path.value);
      match entry {
        case Invalid =>
          return Invalid;
        case Escaping =>
          assert EscapesAt(rt, items, i, entries);
          return Escaping;
        case Value(value) =>
          BodyKeepsPath(rt, items[i], value);
          entries := entries + [value];
          seen := seen + {value.relativePath};
      }
    }
    StandsSoFar(rt, items, entries);
    assert items[..|items|] == items;
    parsed := Value(entries);
  }

  lemma BodyKeepsPath(rt: Runtime, item: Json, entry: BackupEntry)
    requires ParseEntry(rt, item) == Value(entry)
    ensures EntryPath(rt, item).Some? && entry.relativePath == Posix(EntryPath(rt, item).value)
  {
  }

  lemma NewPath(entries: seq<BackupEntry>, seen: set<string>, path: string)
    requires seen == set j | 0 <= j < |entries| :: entries[j].relativePath
    ensures HasPath(entries, path) <==> path in seen
  {
  }

  /** While every entry stands, none escapes, and nothing else can be read from them. */
  lemma StandsSoFar(rt: Runtime, items: seq<Json>, entries: seq<BackupEntry>)
    requires |entries| <= |items| && PathsDistinct(entries)
    requires forall j :: 0 <= j < |entries| ==> ParseEntry(rt, items[j]) == Value(entries[j])
    ensures IsParsedFrom(rt, items[..|entries|], entries)
    ensures forall i: nat, before :: EscapesAt(rt, items, i, before) ==>
              i >= |entries| && (i == |entries| ==> before == entries)
    ensures forall i: nat, before :: EscapesAt(rt, items, i, before) && i > |entries| ==> ParseEntry(rt, items[|entries|]).Value?
    ensures forall all :: IsParsedFrom(rt, items, all) && |entries| < |items| ==> ParseEntry(rt, items[|entries|]).Value?
  {
    hide ParseEntry, HasPath;
    forall i: nat, before | EscapesAt(rt, items, i, before)
      ensures i >= |entries| && (i == |entries| ==> before == entries)
      ensures i > |entries| ==> ParseEntry(rt, items[|entries|]).Value?
    {
      if i == |entries| {
        EntriesAreUnique(rt, items[..i], before, entries);
      }
      if i > |entries| {
        assert items[..i][|entries|] == items[|entries|];
      }
    }
  }

  lemma RepeatedPathsAreRefused(rt: Runtime, items: seq<Json>, entries: seq<BackupEntry>)
    requires |entries| < |items| && PathsDistinct(entries)
    requires forall j :: 0 <= j < |entries| ==> ParseEntry(rt, items[j]) == Value(entries[j])
    requires var path := EntryPath(rt, items[|entries|]); path.Some? && HasPath(entries, Posix(path.value))
    ensures forall all :: !IsParsedFrom(rt, items, all)
    ensures forall i: nat, before :: !EscapesAt(rt, items, i, before)
  {
    hide EntryPath, EntryBody;
    var n := |entries|;
    var k :| 0 <= k < n && entries[k].relativePath == Posix(EntryPath(rt, items[n]).value);
    forall m: nat, all: seq<BackupEntry> | n < m <= |items| && |all| == m && forall j :: 0 <= j < m ==> ParseEntry(rt, items[..m][j]) == Value(all[j])
      ensures !PathsDistinct(all)
    {
      assert items[..m][k] == items[k] && items[..m][n] == items[n];
      BodyKeepsPath(rt, items[n], all[n]);
      assert all[k].relativePath == all[n].relativePath;
    }
    assert items[..|items|] == items;
    StandsSoFar(rt, items, entries);
  }

  /** _parse_manifest, after json.loads. */
  method ParseManifest(rt: Runtime, raw: Json) returns (parsed: Parsed<BackupManifest>)
    ensures parsed.Value? ==> Parses(rt, raw, parsed.result)
    ensures !parsed.Value? ==> forall m :: !Parses(rt, raw, m)
    ensures parsed == Escaping <==> ParseEscapes(rt, raw)
  {
    hide SafeBackupId, IsRevision, IsParsedFrom, HasPath, EntriesEscape, IsOne;
    if !raw.JObject? || "manifest_version" !in raw.fields || !IsOne(raw.fields["manifest_version"]) {
      return Invalid;
    }
    var backupId := SafeBackupId(rt.str(Get(raw.fields, "backup_id", JString(""))));
    if backupId == None || "created_at" !in raw.fields {
      return Invalid;
    }
    var createdAt := rt.fromIsoFormat(rt.str(raw.fields["created_at"]));
    if createdAt == None || createdAt.value.Naive? {
      return Invalid;
    }
    var revision := rt.str(Get(raw.fields, "database_revision", JString("")));
    if !IsRevision(revision) {
      return Invalid;
    }
    if "entries" !in raw.fields || !raw.fields["entries"].JArray? {
      return Invalid;
    }
    var entries := ParseEntries(rt, raw.fields["entries"].items);
    if entries == Escaping {
      return Escaping;
    }
    if entries == Invalid {
      return Invalid;
    }
    forall others | IsParsedFrom(rt, raw.fields["entries"].items, others)
      ensures others == entries.result
    {
      EntriesAreUnique(rt, raw.fields["entries"].items, others, entries.result);
    }
    if !HasPath(entries.result, DATABASE_TEXT) {
      return Invalid;
    }
    if createdAt.value == OutOfCalendar {
      return Escaping;
    }
    var version := rt.str(Get(raw.fields, "app_version", JString("unknown")));
    parsed := Value(BackupManifest(backupId.value, createdAt.value.utc,
                                   if |version| <= 64 then version else version[..64], revision, entries.result));
  }

  lemma EntriesAreUnique(rt: Runtime, items: seq<Json>, a: seq<BackupEntry>, b: seq<BackupEntry>)
    requires IsParsedFrom(rt, items, a) && IsParsedFrom(rt, items, b)
    ensures a == b
  {
    hide ParseEntry;
    assert forall i :: 0 <= i < |a| ==> Value(a[i]) == Value(b[i]);
  }

  /** An infinite size in the first entry that has one is such an error. */
  lemma InfiniteSizeEscapes(rt: Runtime, item: Json, rest: seq<Json>, negative: bool)
    requires Lawful(rt) && EntryPath(rt, item).Some?
    requires "size_bytes" in item.fields && item.fields["size_bytes"] == JFloat(Infinite(negative))
    ensures EntriesEscape(rt, [item] + rest)
  {
    var items := [item] + rest;
    assert items[..0] == [] && items[0] == item;
    assert EscapesAt(rt, items, 0, []);
  }

  // ---- Round trip ----

  ghost predicate IsNormalised(path: string) {
    exists parts :: IsSafePath(parts) && path == Posix(parts)
  }

  ghost predicate WellFormedManifest(m: BackupManifest) {
    && IsBackupId(m.backupId)
    && |m.appVersion| <= 64
    && IsRevision(m.databaseRevision)
    && PathsDistinct(m.entries)
    && HasPath(m.entries, DATABASE_TEXT)
    && forall i :: 0 <= i < |m.entries| ==> IsNormalised(m.entries[i].relativePath) && IsDigest(m.entries[i].sha256)
  }

  lemma BackupIdIsStripped(id: string)
    requires IsBackupId(id)
    ensures SafeBackupId(id) == Some(id)
  {
    assert id[0] == id[..20][0] == 's';
    assert IsHexDigit(id[43..][7]) && id[43..][7] == id[50];
  }

  lemma EntryRoundTrip(rt: Runtime, entry: BackupEntry)
    requires Lawful(rt) && IsNormalised(entry.relativePath) && IsDigest(entry.sha256)
    ensures ParseEntry(rt, EntryToJson(entry)) == Value(entry)
  {
    var parts :| IsSafePath(parts) && entry.relativePath == Posix(parts);
    SafePathsAreAccepted(parts);
  }

  lemma PrintedFields(rt: Runtime, m: BackupManifest)
    ensures ToJson(rt, m).JObject?
    ensures var fields := ToJson(rt, m).fields;
            && Get(fields, "backup_id", JNull) == JString(m.backupId)
            && Get(fields, "database_revision", JNull) == JString(m.databaseRevision)
            && Get(fields, "app_version", JNull) == JString(m.appVersion)
            && Get(fields, "manifest_version", JNull) == JInt(1)
            && Get(fields, "created_at", JNull) == JString(rt.isoFormat(m.createdAt))
            && Get(fields, "total_bytes", JNull) == JInt(TotalBytes(m.entries))
            && Get(fields, "file_count", JNull) == JInt(|m.entries|)
            && fields.Keys == {"manifest_version", "backup_id", "created_at", "app_version", "database_revision",
                               "total_bytes", "file_count", "entries"}
            && Get(fields, "entries", JNull)
                 == JArray(seq(|m.entries|, i requires 0 <= i < |m.entries| => EntryToJson(m.entries[i])))
            && "manifest_version" in fields && "created_at" in fields && "entries" in fields
            && "backup_id" in fields && "database_revision" in fields && "app_version" in fields
  {
    assert |"manifest_version"| == 16 && |"backup_id"| == 9 && |"created_at"| == 10 && |"app_version"| == 11;
    assert |"database_revision"| == 17 && |"total_bytes"| == 11 && |"file_count"| == 10 && |"entries"| == 7;
    assert "created_at"[0] == 'c' && "file_count"[0] == 'f' && "app_version"[0] == 'a' && "total_bytes"[0] == 't';
  }

  /** A well-formed manifest that is printed and parsed comes back as it was: the entries in order,
      and the totals, which are printed but not read, recomputed. */
  lemma ManifestRoundTrip(rt: Runtime, m: BackupManifest)
    requires Lawful(rt) && WellFormedManifest(m)
    ensures Parses(rt, ToJson(rt, m), m)
  {
    hide ParseEntry, SafeBackupId, IsBackupId, IsRevision, ToJson, HasPath;
    BackupIdIsStripped(m.backupId);
    PrintedFields(rt, m);
    forall i | 0 <= i < |m.entries|
      ensures ParseEntry(rt, ToJson(rt, m).fields["entries"].items[i]) == Value(m.entries[i])
    {
      EntryRoundTrip(rt, m.entries[i]);
    }
  }

  /** Whatever is accepted is well-formed: the paths are distinct, safe and normalised, and the
      database is among them. So printing it and parsing again changes nothing. */
  lemma AcceptedIsWellFormed(rt: Runtime, raw: Json, m: BackupManifest)
    requires Parses(rt, raw, m)
    ensures WellFormedManifest(m)
    ensures Lawful(rt) ==> Parses(rt, ToJson(rt, m), m)
  {
    forall i | 0 <= i < |m.entries|
      ensures IsNormalised(m.entries[i].relativePath)
    {
      var item := raw.fields["entries"].items[i];
      assert ParseEntry(rt, item) == Value(m.entries[i]);
      AcceptedTextsAreSafe(rt.str(Get(item.fields, "relative_path", JString(""))));
    }
    if Lawful(rt) {
      ManifestRoundTrip(rt, m);
    }
  }

  /** A JSON value stands for at most one manifest. */
  lemma ParsingIsFunctional(rt: Runtime, raw: Json, m: BackupManifest, n: BackupManifest)
    requires Parses(rt, raw, m) && Parses(rt, raw, n)
    ensures m == n
  {
    EntriesAreUnique(rt, raw.fields["entries"].items, m.entries, n.entries);
  }

  // ---- Identifiers ----

  /** Python's lower-case hexadecimal digits, decimal ones first. */
  const HEX_DIGITS := "0123456789abcdef"

  /** The classes of the patterns, as lists of characters. */
  lemma DigitsExactly(c: char)
    ensures IsDigit(c) <==> c in HEX_DIGITS[..10]
    ensures IsHexDigit(c) <==> c in HEX_DIGITS
  {
    var h := HEX_DIGITS;
    assert |h| == 16 && h[0] == '0' && h[1] == '1' && h[2] == '2' && h[3] == '3' && h[4] == '4' && h[5] == '5' && h[6] == '6'
        && h[7] == '7' && h[8] == '8' && h[9] == '9' && h[10] == 'a' && h[11] == 'b' && h[12] == 'c' && h[13] == 'd'
        && h[14] == 'e' && h[15] == 'f';
    if '0' <= c <= '9' {
      assert h[..10][c as int - '0' as int] == c;
    }
    if 'a' <= c <= 'f' {
      assert h[10 + (c as int - 'a' as int)] == c;
    }
  }

  /** Revisions as Alembic makes them are accepted, and so is each character it or a person may use in
      one; no white space, separator or quote is. */
  lemma RevisionsAccepted(s: string, c: char)
    ensures 1 <= |s| <= 128 && AllHex(s) ==> IsRevision(s)
    ensures IsRevision([c]) <==> IsDigit(c) || 'a' <= LowerChar(c) <= 'z' || c in ['_', '.', '-']
    ensures IsRevision(s) ==> c !in s || IsRevision([c])
  {
    assert [c][0] == c;
    if IsRevision(s) && c in s {
      var i :| 0 <= i < |s| && s[i] == c;
    }
  }

  /** The form in which identifiers are generated: a date, a time of twelve digits and eight
      hexadecimal ones. */
  ghost predicate IsNewId(id: string, date: string, time: string, random: string) {
    && |date| == 8 && |time| == 12 && |random| == 8 && AllDigits(date) && AllDigits(time) && AllHex(random)
    && id == "software-hub-backup-" + date + "T" + time + "Z-" + random
  }

  /** Accepted as identifiers are exactly the texts of that form. */
  lemma BackupIdsExactly(id: string)
    ensures IsBackupId(id) <==> exists date, time, random :: IsNewId(id, date, time, random)
  {
    var prefix := "software-hub-backup-";
    assert |prefix| == 20;
    if IsBackupId(id) {
      var date, time, random := id[20..28], id[29..41], id[43..];
      assert id == id[..20] + date + [id[28]] + time + id[41..43] + random;
      assert IsNewId(id, date, time, random);
    }
    forall date, time, random | IsNewId(id, date, time, random)
      ensures IsBackupId(id)
    {
      assert id[..20] == prefix && id[20..28] == date && id[29..41] == time && id[41..43] == "Z-" && id[43..] == random;
    }
  }

  predicate IsBlank(s: string) {
    forall i :: 0 <= i < |s| ==> IsSpace(s[i])
  }

  lemma {:induction false} LStripSkips(blank: string, s: string)
    requires IsBlank(blank) && (s == "" || !IsSpace(s[0]))
    ensures LStrip(blank + s) == s
    decreases |blank|
  {
    hide IsSpace;
    if blank == "" {
      assert blank + s == s;
    } else {
      assert (blank + s)[1..] == blank[1..] + s && (blank + s)[0] == blank[0];
      LStripSkips(blank[1..], s);
    }
  }

  lemma {:induction false} RStripSkips(s: string, blank: string)
    requires IsBlank(blank) && (s == "" || !IsSpace(s[|s| - 1]))
    ensures RStrip(s + blank) == s
    decreases |blank|
  {
    hide IsSpace;
    if blank == "" {
      assert s + blank == s;
    } else {
      var t := s + blank;
      assert t[..|t| - 1] == s + blank[..|blank| - 1] && t[|t| - 1] == blank[|blank| - 1];
      RStripSkips(s, blank[..|blank| - 1]);
    }
  }

  lemma {:induction false} LStripped(s: string) returns (blank: string)
    ensures IsBlank(blank) && s == blank + LStrip(s)
  {
    hide IsSpace;
    if s != "" && IsSpace(s[0]) {
      var rest := LStripped(s[1..]);
      blank := [s[0]] + rest;
    } else {
      blank := "";
    }
  }

  lemma {:induction false} RStripped(s: string) returns (blank: string)
    ensures IsBlank(blank) && s == RStrip(s) + blank
  {
    hide IsSpace;
    if s != "" && IsSpace(s[|s| - 1]) {
      var rest := RStripped(s[..|s| - 1]);
      blank := rest + [s[|s| - 1]];
    } else {
      blank := "";
    }
  }

  lemma IdsHaveNoSpaceAround(id: string)
    requires IsBackupId(id)
    ensures id != "" && !IsSpace(id[0]) && !IsSpace(id[|id| - 1])
  {
    assert id[0] == id[..20][0] == 's';
    assert IsHexDigit(id[43..][7]) && id[43..][7] == id[50];
  }

  /** An identifier is found in a text exactly if white space is all there is around it. */
  lemma SafeBackupIdExactly(value: string, id: string)
    ensures SafeBackupId(value) == Some(id)
            <==> IsBackupId(id) && exists before, after :: IsBlank(before) && IsBlank(after) && value == before + id + after
  {
    hide IsSpace, IsBackupId, IsBlank;
    if SafeBackupId(value) == Some(id) {
      var before := LStripped(value);
      var after := RStripped(LStrip(value));
      assert value == before + id + after;
    }
    if IsBackupId(id) {
      IdsHaveNoSpaceAround(id);
      forall before, after | IsBlank(before) && IsBlank(after) && value == before + id + after
        ensures SafeBackupId(value) == Some(id)
      {
        assert value == before + (id + after) && (id + after)[0] == id[0];
        LStripSkips(before, id + after);
        RStripSkips(id, after);
      }
    }
  }

  // ---- What is read ----

  /** The manifest parsed from an object says what the object says: of texts and numbers, and with the
      two defaults. */
  lemma ManifestIsRead(rt: Runtime, fields: map<string, Json>, m: BackupManifest)
    requires Lawful(rt) && Parses(rt, JObject(fields), m)
    ensures "manifest_version" in fields
    ensures fields["manifest_version"].JInt? ==> fields["manifest_version"].number == 1
    ensures "backup_id" in fields
    ensures fields["backup_id"].JString? ==> SafeBackupId(fields["backup_id"].text) == Some(m.backupId)
    ensures "app_version" !in fields ==> m.appVersion == "unknown"
    ensures "app_version" in fields && fields["app_version"].JString? ==>
              m.appVersion <= fields["app_version"].text && |m.appVersion| == Min(64, |fields["app_version"].text|)
    ensures "created_at" in fields
    ensures forall t :: fields["created_at"] == JString(rt.isoFormat(t)) ==> m.createdAt == t
    ensures "database_revision" in fields && IsRevision(m.databaseRevision)
    ensures fields["database_revision"].JString? ==> m.databaseRevision == fields["database_revision"].text
    ensures "entries" in fields && fields["entries"].JArray? && |fields["entries"].items| == |m.entries|
  {
    hide PathsDistinct, HasPath, SafeBackupId, IsRevision, ParseEntry;
    NothingIsNoId();
    NothingIsNoRevision();
    assert |"unknown"| == 7;
  }

  lemma NothingIsNoId()
    ensures SafeBackupId("") == None
  {
  }

  lemma NothingIsNoRevision()
    ensures !IsRevision("")
  {
  }

  /** So does each entry. */
  lemma EntryIsRead(rt: Runtime, fields: map<string, Json>, entry: BackupEntry)
    requires Lawful(rt) && ParseEntry(rt, JObject(fields)) == Value(entry)
    ensures "relative_path" in fields && "size_bytes" in fields && "sha256" in fields
    ensures fields["relative_path"].JString? ==>
              SafeRelativePath(fields["relative_path"].text).Some?
              && entry.relativePath == Posix(SafeRelativePath(fields["relative_path"].text).value)
    ensures fields["size_bytes"].JInt? ==> entry.sizeBytes == fields["size_bytes"].number
    ensures fields["sha256"].JString? ==> entry.sha256 == fields["sha256"].text
    ensures IsDigest(entry.sha256)
  {
    hide Parts, Posix, IsDigest, HasForbiddenCharacter;
  }
}
