/** The whole persistent state: database rows on one side, stored files on the other, and the
    moves between the storage areas (`app/storage/lifecycle.py`, `app/storage/move.py`). */
module StorageState {
  import opened Prelude
  import opened Signatures
  import opened Policies
  import opened DownloadStats

  /** StorageArea */
  datatype Area = Quarantine | SoftwareArea

  /** Where a file can be: in a storage area, or below the temporary root. */
  datatype Place =
    | Stored(area: Area, path: Path)
    | Temporary(folder: string, name: string)

  type Files = map<Place, Bytes>

  /** The files, with the path each staged deletion came from: history that no operation reads. */
  datatype Disk = Disk(files: Files, origin: map<Place, Path>)

  /** `abandoned` is history too: the files whose rows were deleted while the files were kept. */
  datatype Snapshot = Snapshot(
    rows: map<nat, FileRow>, releases: map<nat, Release>, softwares: map<nat, Software>,
    stats: Stats, disk: Disk, abandoned: set<Place>)

  /** What the model leaves open: SHA-256, text folding, and the configured sample size. */
  datatype Env = Env(hash: Hash, fold: Fold, sampleSize: nat)

  function Sample(env: Env, data: Bytes): Bytes {
    data[..Min(env.sampleSize, |data|)]
  }

  // ---- Looking files up ----

  /** inspect_stored_files: the areas holding a file at this path. */
  function StoredAreas(files: Files, path: Path): seq<Area> {
    (if Stored(Quarantine, path) in files then [Quarantine] else [])
    + (if Stored(SoftwareArea, path) in files then [SoftwareArea] else [])
  }

  /** locate_stored_file: exactly one file, or nothing. */
  function Locate(files: Files, path: Path): (area: Option<Area>)
    ensures area.Some? ==> Stored(area.value, path) in files
  {
    var areas := StoredAreas(files, path);
    if |areas| == 1 then Some(areas[0]) else None
  }

  /** _area_allowed */
  predicate AreaAllowed(status: FileStatus, area: Area) {
    if status == Published then area == SoftwareArea
    else if status in {Quarantined, Ready, Rejected} then area == Quarantine
    else true
  }

  // ---- Temporary names ----

  predicate IsHex(s: string) {
    forall c :: c in s ==> c in "0123456789abcdef"
  }

  /** is_temporary_filename: 32 hexadecimal digits and ".upload". */
  predicate IsTemporaryFilename(name: string) {
    |name| == 39 && IsHex(name[..32]) && name[32..] == ".upload"
  }

  function UploadPlace(token: string): Place {
    Temporary("", token + ".upload")
  }

  function StagingPlace(token: string): Place {
    Temporary("deletions", token + ".delete")
  }

  ghost predicate IsStagingPlace(place: Place) {
    exists token :: place == StagingPlace(token)
  }

  /** Whatever its token, a staged deletion never has a name the temporary cleanup may delete. */
  lemma StagedDeletionsAreNotTemporaryUploads(place: Place)
    requires IsStagingPlace(place)
    ensures !IsTemporaryFilename(place.name)
  {
    var token :| place == StagingPlace(token);
    if |place.name| == 39 {
      assert place.name[32..][1] == place.name[33] == ".delete"[1];
    }
  }

  // ---- Moves ----

  predicate CanMove(d: Disk, src: Place, dst: Place) {
    src in d.files && dst !in d.files
  }

  /** atomic_move: one rename, never onto an existing file. */
  function Moved(d: Disk, src: Place, dst: Place): Disk
    requires CanMove(d, src, dst)
  {
    Disk((d.files - {src})[dst := d.files[src]],
         if src.Temporary? then d.origin - {src}
         else if dst.Temporary? then d.origin[dst := src.path] else d.origin)
  }

  function WithFile(d: Disk, place: Place, data: Bytes): Disk {
    d.(files := d.files[place := data])
  }

  function Unlinked(d: Disk, place: Place): Disk {
    Disk(d.files - {place}, d.origin - {place})
  }

  /** Staged deletions are files, and lie where staging puts them. */
  ghost predicate WellFormed(d: Disk) {
    d.origin.Keys <= d.files.Keys && forall place :: place in d.origin ==> IsStagingPlace(place)
  }

  /** Undoing a move of a stored file restores the disk exactly. */
  lemma MoveAndBack(d: Disk, src: Place, dst: Place)
    requires WellFormed(d) && CanMove(d, src, dst) && src.Stored?
    ensures CanMove(Moved(d, src, dst), dst, src) && Moved(Moved(d, src, dst), dst, src) == d
  {
    assert (d.files - {src})[dst := d.files[src]] - {dst} == d.files - {src};
    assert (d.files - {src})[src := d.files[src]] == d.files;
    assert dst !in d.origin;
    if dst.Temporary? {
      assert d.origin[dst := src.path] - {dst} == d.origin;
    }
  }

  // ---- Survival: no row ever loses its bytes ----

  /** The bytes are what the row describes. */
  predicate Faithful(env: Env, row: FileRow, data: Bytes) {
    && |data| == row.size
    && env.hash(data) == row.sha256
    && StoredMimeType(Sample(env, data)) == row.mimeType
  }

  /** The row path a file belongs to: its own, or the one it was staged from. */
  function PathOf(d: Disk, place: Place): Option<Path> {
    match place
    case Stored(_, path) => Some(path)
    case Temporary(_, _) => if place in d.origin then Some(d.origin[place]) else None
  }

  ghost predicate IsCopyOf(d: Disk, place: Place, path: Path) {
    place in d.files && PathOf(d, place) == Some(path)
  }

  ghost predicate IsOnlyCopy(env: Env, d: Disk, row: FileRow, place: Place) {
    && IsCopyOf(d, place, row.path)
    && Faithful(env, row, d.files[place])
    && forall other :: IsCopyOf(d, other, row.path) ==> other == place
  }

  /** Exactly one copy of the row's file exists, in an area or staged for deletion, intact. */
  ghost predicate Held(env: Env, d: Disk, row: FileRow) {
    exists place :: IsOnlyCopy(env, d, row, place)
  }

  ghost predicate UniquePaths(rows: map<nat, FileRow>) {
    forall i, j :: i in rows && j in rows && i != j ==> rows[i].path != rows[j].path
  }

  predicate Referenced(rows: map<nat, FileRow>, path: Path) {
    exists id | id in rows :: rows[id].path == path
  }

  /** The invariant that holds even when the process stops between any two steps. */
  ghost predicate Survives(env: Env, rows: map<nat, FileRow>, d: Disk) {
    WellFormed(d) && UniquePaths(rows) && forall id :: id in rows ==> Held(env, d, rows[id])
  }

  /** A move that does not change whose file it is. */
  ghost predicate KeepsOwner(rows: map<nat, FileRow>, d: Disk, src: Place, dst: Place) {
    match dst
    case Temporary(_, _) => IsStagingPlace(dst) && src.Stored?
    case Stored(_, path) =>
      PathOf(d, src) == Some(path) || (PathOf(d, src) == None && !Referenced(rows, path))
  }

  lemma MoveKeepsSurvival(env: Env, rows: map<nat, FileRow>, d: Disk, src: Place, dst: Place)
    requires Survives(env, rows, d) && CanMove(d, src, dst) && KeepsOwner(rows, d, src, dst)
    ensures Survives(env, rows, Moved(d, src, dst))
  {
    var t := Moved(d, src, dst);
    forall id | id in rows
      ensures Held(env, t, rows[id])
    {
      var place :| IsOnlyCopy(env, d, rows[id], place);
      var moved := if place == src then dst else place;
      forall other | IsCopyOf(t, other, rows[id].path)
        ensures other == moved
      {
        if other == dst {
          assert IsCopyOf(d, src, rows[id].path);
        } else {
          assert IsCopyOf(d, other, rows[id].path);
        }
      }
      assert IsOnlyCopy(env, t, rows[id], moved);
    }
  }

  /** Only a file that belongs to no row may be removed. */
  lemma UnlinkKeepsSurvival(env: Env, rows: map<nat, FileRow>, d: Disk, place: Place)
    requires Survives(env, rows, d)
    requires PathOf(d, place).Some? ==> !Referenced(rows, PathOf(d, place).value)
    ensures Survives(env, rows, Unlinked(d, place))
  {
    forall id | id in rows
      ensures Held(env, Unlinked(d, place), rows[id])
    {
      var kept :| IsOnlyCopy(env, d, rows[id], kept);
      forall other | IsCopyOf(Unlinked(d, place), other, rows[id].path)
        ensures IsCopyOf(d, other, rows[id].path)
      {
      }
      assert IsOnlyCopy(env, Unlinked(d, place), rows[id], kept);
    }
  }

  /** Writing a temporary upload touches no copy. */
  lemma TemporaryWriteKeepsSurvival(env: Env, rows: map<nat, FileRow>, d: Disk, place: Place, data: Bytes)
    requires Survives(env, rows, d) && place.Temporary? && place !in d.origin
    ensures Survives(env, rows, d.(files := d.files[place := data]))
  {
    var t := d.(files := d.files[place := data]);
    forall id | id in rows
      ensures Held(env, t, rows[id])
    {
      var kept :| IsOnlyCopy(env, d, rows[id], kept);
      forall other | IsCopyOf(t, other, rows[id].path)
        ensures IsCopyOf(d, other, rows[id].path)
      {
      }
      assert IsOnlyCopy(env, t, rows[id], kept);
    }
  }

  /** The columns that tie a row to its file. */
  predicate SameFile(row: FileRow, other: FileRow) {
    && row.path == other.path
    && row.size == other.size
    && row.sha256 == other.sha256
    && row.mimeType == other.mimeType
    && row.extension == other.extension
  }

  lemma RowUpdateKeepsSurvival(env: Env, rows: map<nat, FileRow>, d: Disk, id: nat, row: FileRow)
    requires Survives(env, rows, d) && id in rows && SameFile(row, rows[id])
    ensures Survives(env, rows[id := row], d)
  {
    var kept :| IsOnlyCopy(env, d, rows[id], kept);
    assert IsOnlyCopy(env, d, row, kept);
  }

  /** A new row whose file is the only one at its path. */
  lemma RowInsertKeepsSurvival(env: Env, rows: map<nat, FileRow>, d: Disk, id: nat, row: FileRow, place: Place)
    requires Survives(env, rows, d) && !Referenced(rows, row.path) && IsOnlyCopy(env, d, row, place)
    ensures Survives(env, rows[id := row], d)
  {
  }

  lemma RowDropKeepsSurvival(env: Env, rows: map<nat, FileRow>, d: Disk, id: nat)
    requires Survives(env, rows, d) && id in rows
    ensures Survives(env, rows - {id}, d) && !Referenced(rows - {id}, rows[id].path)
  {
  }
}
