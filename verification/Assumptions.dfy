/** The assumptions that the backup theorems make about foreign code can be met: there is a runtime and
    a codec with all the assumed properties, so none of those theorems is empty. */
module Assumptions {
  import opened Prelude
  import opened Manifest
  import opened BackupVerify

  // ---- Manifests as bytes, in unary, each part readable before the next ----

  function PutNat(n: nat): Bytes {
    if n == 0 then [0] else [1] + PutNat(n - 1)
  }

  function Abs(n: int): nat {
    if n < 0 then -n else n
  }

  function PutInt(n: int): Bytes {
    [if n < 0 then 1 else 0] + PutNat(Abs(n))
  }

  function PutChars(s: string): Bytes {
    if s == "" then [] else PutNat(s[0] as int) + PutChars(s[1..])
  }

  function PutString(s: string): Bytes {
    PutNat(|s|) + PutChars(s)
  }

  function PutEntry(entry: BackupEntry): Bytes {
    PutString(entry.relativePath) + PutNat(entry.sizeBytes) + PutString(entry.sha256)
  }

  function PutEntries(entries: seq<BackupEntry>): Bytes {
    if entries == [] then [] else PutEntry(entries[0]) + PutEntries(entries[1..])
  }

  function PutManifest(m: BackupManifest): Bytes {
    PutString(m.backupId) + PutInt(m.createdAt) + PutString(m.appVersion) + PutString(m.databaseRevision)
    + PutNat(|m.entries|) + PutEntries(m.entries)
  }

  lemma {:induction false} NatIsRead(a: nat, b: nat, x: Bytes, y: Bytes)
    requires PutNat(a) + x == PutNat(b) + y
    ensures a == b && x == y
  {
    var left, right := PutNat(a) + x, PutNat(b) + y;
    assert left[0] == PutNat(a)[0] && right[0] == PutNat(b)[0];
    if a == 0 || b == 0 {
      assert x == left[1..] && y == right[1..];
    } else {
      assert left[1..] == PutNat(a - 1) + x && right[1..] == PutNat(b - 1) + y;
      NatIsRead(a - 1, b - 1, x, y);
    }
  }

  lemma IntIsRead(a: int, b: int, x: Bytes, y: Bytes)
    requires PutInt(a) + x == PutInt(b) + y
    ensures a == b && x == y
  {
    hide PutNat;
    var left, right := PutInt(a) + x, PutInt(b) + y;
    assert left[0] == PutInt(a)[0] && right[0] == PutInt(b)[0];
    assert left[1..] == PutNat(Abs(a)) + x && right[1..] == PutNat(Abs(b)) + y;
    NatIsRead(Abs(a), Abs(b), x, y);
  }

  lemma {:induction false} CharsAreRead(a: string, b: string, x: Bytes, y: Bytes)
    requires |a| == |b| && PutChars(a) + x == PutChars(b) + y
    ensures a == b && x == y
  {
    if a == "" {
      assert PutChars(a) + x == x && PutChars(b) + y == y;
    } else {
      assert PutChars(a) + x == PutNat(a[0] as int) + (PutChars(a[1..]) + x);
      assert PutChars(b) + y == PutNat(b[0] as int) + (PutChars(b[1..]) + y);
      NatIsRead(a[0] as int, b[0] as int, PutChars(a[1..]) + x, PutChars(b[1..]) + y);
      CharsAreRead(a[1..], b[1..], x, y);
      assert a == [a[0]] + a[1..] && b == [b[0]] + b[1..];
    }
  }

  lemma StringIsRead(a: string, b: string, x: Bytes, y: Bytes)
    requires PutString(a) + x == PutString(b) + y
    ensures a == b && x == y
  {
    hide PutNat, PutChars;
    assert PutString(a) + x == PutNat(|a|) + (PutChars(a) + x) && PutString(b) + y == PutNat(|b|) + (PutChars(b) + y);
    NatIsRead(|a|, |b|, PutChars(a) + x, PutChars(b) + y);
    CharsAreRead(a, b, x, y);
  }

  lemma EntryIsRead(a: BackupEntry, b: BackupEntry, x: Bytes, y: Bytes)
    requires PutEntry(a) + x == PutEntry(b) + y
    ensures a == b && x == y
  {
    hide PutNat, PutString;
    var s, t := PutString(a.sha256) + x, PutString(b.sha256) + y;
    assert PutEntry(a) + x == PutString(a.relativePath) + (PutNat(a.sizeBytes) + s);
    assert PutEntry(b) + y == PutString(b.relativePath) + (PutNat(b.sizeBytes) + t);
    StringIsRead(a.relativePath, b.relativePath, PutNat(a.sizeBytes) + s, PutNat(b.sizeBytes) + t);
    NatIsRead(a.sizeBytes, b.sizeBytes, s, t);
    StringIsRead(a.sha256, b.sha256, x, y);
  }

  lemma {:induction false} EntriesAreRead(a: seq<BackupEntry>, b: seq<BackupEntry>)
    requires |a| == |b| && PutEntries(a) == PutEntries(b)
    ensures a == b
  {
    hide PutEntry;
    if a != [] {
      EntryIsRead(a[0], b[0], PutEntries(a[1..]), PutEntries(b[1..]));
      EntriesAreRead(a[1..], b[1..]);
      assert a == [a[0]] + a[1..] && b == [b[0]] + b[1..];
    }
  }

  /** Different manifests are put differently. */
  lemma ManifestIsRead(m: BackupManifest, n: BackupManifest)
    requires PutManifest(m) == PutManifest(n)
    ensures m == n
  {
    hide PutNat, PutInt, PutString, PutEntries;
    var m4, n4 := PutNat(|m.entries|) + PutEntries(m.entries), PutNat(|n.entries|) + PutEntries(n.entries);
    var m3, n3 := PutString(m.databaseRevision) + m4, PutString(n.databaseRevision) + n4;
    var m2, n2 := PutString(m.appVersion) + m3, PutString(n.appVersion) + n3;
    var m1, n1 := PutInt(m.createdAt) + m2, PutInt(n.createdAt) + n2;
    assert PutManifest(m) == PutString(m.backupId) + m1 && PutManifest(n) == PutString(n.backupId) + n1;
    StringIsRead(m.backupId, n.backupId, m1, n1);
    IntIsRead(m.createdAt, n.createdAt, m2, n2);
    StringIsRead(m.appVersion, n.appVersion, m3, n3);
    StringIsRead(m.databaseRevision, n.databaseRevision, m4, n4);
    NatIsRead(|m.entries|, |n.entries|, PutEntries(m.entries), PutEntries(n.entries));
    EntriesAreRead(m.entries, n.entries);
  }

  // ---- A runtime and a codec ----

  function Tally(n: nat): string {
    if n == 0 then "" else "|" + Tally(n - 1)
  }

  function PutTime(t: int): string {
    (if t < 0 then "-" else "+") + Tally(Abs(t))
  }

  lemma {:induction false} TallyCounts(n: nat)
    ensures |Tally(n)| == n
  {
    if n > 0 {
      TallyCounts(n - 1);
    }
  }

  lemma TimeIsRead(t: int, u: int)
    requires PutTime(t) == PutTime(u)
    ensures t == u
  {
    TallyCounts(Abs(t));
    TallyCounts(Abs(u));
    assert PutTime(t)[0] == PutTime(u)[0] && |PutTime(t)| == |PutTime(u)|;
  }

  ghost function ReadTime(s: string): Option<Stamp> {
    if exists t :: PutTime(t) == s then var t :| PutTime(t) == s; Some(Aware(t)) else None
  }

  function TextOf(j: Json): string {
    if j.JString? then j.text else ""
  }

  function IntOf(j: Json): Parsed<int> {
    match j
    case JInt(n) => Value(n)
    case JFloat(Infinite(_)) => Escaping
    case _ => Invalid
  }

  ghost function SomeRuntime(): Runtime {
    Runtime(j => TextOf(j), j => IntOf(j), t => PutTime(t), s => ReadTime(s))
  }

  ghost function Printed(j: Json): Option<Bytes> {
    if exists m :: ToJson(SomeRuntime(), m) == j
    then var m :| ToJson(SomeRuntime(), m) == j; Some(PutManifest(m)) else None
  }

  ghost function Loaded(b: Bytes): Parsed<Json> {
    if exists m :: PutManifest(m) == b
    then var m :| PutManifest(m) == b; Value(ToJson(SomeRuntime(), m)) else Invalid
  }

  ghost function SomeCodec(): Codec {
    Codec(b => seq(64, i => '0'), SomeRuntime(), j => Printed(j), b => Loaded(b), s => true, s => true,
          b => true, b => None, entries => entries)
  }

  lemma RuntimeIsLawful()
    ensures Lawful(SomeRuntime())
  {
    forall t
      ensures ReadTime(PutTime(t)) == Some(Aware(t))
    {
      var u :| PutTime(u) == PutTime(t) && ReadTime(PutTime(t)) == Some(Aware(u));
      TimeIsRead(u, t);
    }
  }

  lemma LoadedIsPrinted(m: BackupManifest)
    ensures Printed(ToJson(SomeRuntime(), m)).Some?
    ensures Loaded(Printed(ToJson(SomeRuntime(), m)).value) == Value(ToJson(SomeRuntime(), m))
  {
    hide ToJson, PutManifest;
    var j := ToJson(SomeRuntime(), m);
    var n :| ToJson(SomeRuntime(), n) == j && Printed(j) == Some(PutManifest(n));
    var k :| PutManifest(k) == PutManifest(n) && Loaded(PutManifest(n)) == Value(ToJson(SomeRuntime(), k));
    ManifestIsRead(k, n);
  }

  /** The assumptions can be met. */
  lemma SoundCanBeMet()
    ensures Sound(SomeCodec())
  {
    hide Lawful, ToJson, HeaderFits, Printed, Loaded;
    RuntimeIsLawful();
    forall m
      ensures PrintsBack(SomeCodec(), m)
    {
      LoadedIsPrinted(m);
    }
  }
}
