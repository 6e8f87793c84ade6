/** The pruned walk over the storage tree: what a backup copies and how large it will be
    (`app/services/backup_service.py`). */
module BackupTree {
  import opened Prelude
  import opened BackupPaths
  import opened Manifest

  /** A directory listing: each entry is a file or a directory, followed by the rest. */
  datatype Tree =
    | Nil
    | FileNode(name: string, data: Bytes, rest: Tree)
    | DirNode(name: string, sub: Tree, rest: Tree)

  type Storage = map<RelPath, Bytes>

  function Names(t: Tree): set<string> {
    match t
    case Nil => {}
    case FileNode(name, _, rest) => {name} + Names(rest)
    case DirNode(name, _, rest) => {name} + Names(rest)
  }

  /** No directory lists a name twice. */
  predicate IsFileSystem(t: Tree) {
    match t
    case Nil => true
    case FileNode(name, _, rest) => name !in Names(rest) && IsFileSystem(rest)
    case DirNode(name, sub, rest) => name !in Names(rest) && IsFileSystem(sub) && IsFileSystem(rest)
  }

  /** The files of a tree, by their paths below `at`. */
  function FilesOf(t: Tree, at: RelPath): Storage {
    match t
    case Nil => map[]
    case FileNode(name, data, rest) => FilesOf(rest, at)[at + [name] := data]
    case DirNode(name, sub, rest) => FilesOf(rest, at) + FilesOf(sub, at + [name])
  }

  /** _excluded_storage_path: the temporary root and everything below it. */
  predicate Excluded(path: RelPath, temporary: RelPath) {
    temporary <= path
  }

  /** Which files a walk leaves out. The size estimate prunes directories as the copy does, but does
      not test single files, so it counts a file that stands in the place of the temporary root. */
  predicate Omitted(path: RelPath, temporary: RelPath, counting: bool) {
    if counting then temporary < path else temporary <= path
  }

  /** What a backup copies, or what the estimate counts. */
  function Retained(storage: Storage, temporary: RelPath, counting: bool): Storage {
    map path | path in storage && !Omitted(path, temporary, counting) :: storage[path]
  }

  // ---- Paths in a tree ----

  /** Every file of a listing lies below one of its names. */
  lemma {:induction false} FilesLieBelow(t: Tree, at: RelPath)
    ensures forall path :: path in FilesOf(t, at) ==> at < path && path[|at|] in Names(t)
  {
    match t
    case Nil =>
    case FileNode(name, _, rest) => FilesLieBelow(rest, at);
    case DirNode(name, sub, rest) =>
      FilesLieBelow(rest, at);
      FilesLieBelow(sub, at + [name]);
  }

  /** A directory and the rest of its listing share no path. */
  lemma DirectoryIsApart(name: string, sub: Tree, rest: Tree, at: RelPath)
    requires name !in Names(rest)
    ensures FilesOf(rest, at).Keys !! FilesOf(sub, at + [name]).Keys
    ensures FilesOf(DirNode(name, sub, rest), at) == FilesOf(rest, at) + FilesOf(sub, at + [name])
  {
    FilesLieBelow(rest, at);
    FilesLieBelow(sub, at + [name]);
  }

  lemma FileIsApart(name: string, rest: Tree, at: RelPath)
    requires name !in Names(rest)
    ensures at + [name] !in FilesOf(rest, at)
  {
    FilesLieBelow(rest, at);
  }

  /** Nothing below an excluded directory is retained. */
  lemma PrunedDirectoryHoldsNothing(sub: Tree, at: RelPath, temporary: RelPath, counting: bool)
    requires Excluded(at, temporary)
    ensures Retained(FilesOf(sub, at), temporary, counting) == map[]
  {
    FilesLieBelow(sub, at);
  }

  // ---- The walk ----

  /** A directory that remains to be listed, or the rest of one. */
  datatype Frame = Frame(at: RelPath, listing: Tree)

  function Weight(t: Tree): nat {
    match t
    case Nil => 1
    case FileNode(_, _, rest) => 1 + Weight(rest)
    case DirNode(_, sub, rest) => 1 + Weight(sub) + Weight(rest)
  }

  function StackWeight(stack: seq<Frame>): nat {
    if stack == [] then 0 else Weight(stack[0].listing) + StackWeight(stack[1..])
  }

  function RetainedIn(frame: Frame, temporary: RelPath, counting: bool): Storage {
    Retained(FilesOf(frame.listing, frame.at), temporary, counting)
  }

  /** The files still to be retained from the stack. */
  function Pending(stack: seq<Frame>, temporary: RelPath, counting: bool): Storage {
    if stack == [] then map[]
    else Pending(stack[1..], temporary, counting) + RetainedIn(stack[0], temporary, counting)
  }

  /** The frames of a stack list different files, each frame without repetitions. */
  ghost predicate Apart(stack: seq<Frame>, temporary: RelPath, counting: bool) {
    stack != [] ==>
      && IsFileSystem(stack[0].listing)
      && !Excluded(stack[0].at, temporary)
      && RetainedIn(stack[0], temporary, counting).Keys !! Pending(stack[1..], temporary, counting).Keys
      && Apart(stack[1..], temporary, counting)
  }

  lemma Pushed(frame: Frame, others: seq<Frame>, temporary: RelPath, counting: bool)
    ensures Pending([frame] + others, temporary, counting) == Pending(others, temporary, counting) + RetainedIn(frame, temporary, counting)
    ensures Apart([frame] + others, temporary, counting) <==>
              && IsFileSystem(frame.listing)
              && !Excluded(frame.at, temporary)
              && RetainedIn(frame, temporary, counting).Keys !! Pending(others, temporary, counting).Keys
              && Apart(others, temporary, counting)
  {
    assert ([frame] + others)[1..] == others;
  }

  /** Whether the walk passes over one file; the estimate never tests single files. */
  predicate PassesOver(path: RelPath, temporary: RelPath, counting: bool) {
    !counting && Excluded(path, temporary)
  }

  lemma RetainedFile(at: RelPath, name: string, data: Bytes, rest: Tree, temporary: RelPath, counting: bool)
    requires name !in Names(rest) && !Excluded(at, temporary)
    ensures at + [name] !in RetainedIn(Frame(at, rest), temporary, counting)
    ensures RetainedIn(Frame(at, FileNode(name, data, rest)), temporary, counting)
            == if PassesOver(at + [name], temporary, counting) then RetainedIn(Frame(at, rest), temporary, counting)
               else RetainedIn(Frame(at, rest), temporary, counting)[at + [name] := data]
  {
    FileIsApart(name, rest, at);
    assert at == (at + [name])[..|at|];
  }

  lemma RetainedDirectory(at: RelPath, name: string, sub: Tree, rest: Tree, temporary: RelPath, counting: bool)
    requires name !in Names(rest)
    ensures RetainedIn(Frame(at, rest), temporary, counting).Keys !! RetainedIn(Frame(at + [name], sub), temporary, counting).Keys
    ensures RetainedIn(Frame(at, DirNode(name, sub, rest)), temporary, counting)
            == RetainedIn(Frame(at, rest), temporary, counting) + RetainedIn(Frame(at + [name], sub), temporary, counting)
    ensures Excluded(at + [name], temporary) ==> RetainedIn(Frame(at + [name], sub), temporary, counting) == map[]
  {
    hide FilesOf;
    DirectoryIsApart(name, sub, rest, at);
    RetainedUnion(FilesOf(rest, at), FilesOf(sub, at + [name]), temporary, counting);
    if Excluded(at + [name], temporary) {
      PrunedDirectoryHoldsNothing(sub, at + [name], temporary, counting);
    }
  }

  lemma RetainedUnion(a: Storage, b: Storage, temporary: RelPath, counting: bool)
    ensures Retained(a + b, temporary, counting) == Retained(a, temporary, counting) + Retained(b, temporary, counting)
    ensures a.Keys !! b.Keys ==> Retained(a, temporary, counting).Keys !! Retained(b, temporary, counting).Keys
  {
    hide Excluded;
  }

  /** The manifest entry of one copied file, below one of the top directories of the backup. */
  function EntryFor(hash: Hash, top: string, path: RelPath, data: Bytes): BackupEntry {
    BackupEntry(Posix([top] + path), |data|, hash(data))
  }

  /** The entries are exactly those of the copied files, each once. */
  ghost predicate Describes(hash: Hash, top: string, entries: seq<BackupEntry>, paths: seq<RelPath>, copied: Storage) {
    && |entries| == |paths| == |copied|
    && (forall path :: path in paths <==> path in copied)
    && (forall i, j :: 0 <= i < j < |paths| ==> paths[i] != paths[j])
    && forall i :: 0 <= i < |paths| ==> paths[i] in copied && entries[i] == EntryFor(hash, top, paths[i], copied[paths[i]])
  }

  lemma StepFile(at: RelPath, name: string, data: Bytes, rest: Tree, others: seq<Frame>, temporary: RelPath, counting: bool)
    requires Apart([Frame(at, FileNode(name, data, rest))] + others, temporary, counting)
    ensures Apart([Frame(at, rest)] + others, temporary, counting)
    ensures var before := Pending([Frame(at, FileNode(name, data, rest))] + others, temporary, counting);
            var after := Pending([Frame(at, rest)] + others, temporary, counting);
            if PassesOver(at + [name], temporary, counting) then before == after
            else at + [name] !in after && before == after[at + [name] := data]
  {
    hide Pending, Apart, RetainedIn;
    Pushed(Frame(at, FileNode(name, data, rest)), others, temporary, counting);
    Pushed(Frame(at, rest), others, temporary, counting);
    RetainedFile(at, name, data, rest, temporary, counting);
    if !PassesOver(at + [name], temporary, counting) {
      assert at + [name] in RetainedIn(Frame(at, FileNode(name, data, rest)), temporary, counting);
    }
  }

  lemma StepDirectory(at: RelPath, name: string, sub: Tree, rest: Tree, others: seq<Frame>, temporary: RelPath, counting: bool)
    requires Apart([Frame(at, DirNode(name, sub, rest))] + others, temporary, counting)
    ensures var before := Pending([Frame(at, DirNode(name, sub, rest))] + others, temporary, counting);
            var kept := [Frame(at, rest)] + others;
            var next := if Excluded(at + [name], temporary) then kept else [Frame(at + [name], sub)] + kept;
            Apart(next, temporary, counting) && Pending(next, temporary, counting) == before
  {
    hide Pending, Apart, RetainedIn;
    var kept := [Frame(at, rest)] + others;
    Pushed(Frame(at, DirNode(name, sub, rest)), others, temporary, counting);
    Pushed(Frame(at, rest), others, temporary, counting);
    Pushed(Frame(at + [name], sub), kept, temporary, counting);
    RetainedDirectory(at, name, sub, rest, temporary, counting);
  }

  lemma Weights(frame: Frame, others: seq<Frame>)
    ensures StackWeight([frame] + others) == Weight(frame.listing) + StackWeight(others)
  {
    assert ([frame] + others)[1..] == others;
  }

  /** The stack after one step of the walk, and the file met in it, if one is to be copied. */
  method Advance(stack: seq<Frame>, temporary: RelPath, counting: bool) returns (next: seq<Frame>, met: Option<(RelPath, Bytes)>)
    requires stack != [] && Apart(stack, temporary, counting)
    ensures Apart(next, temporary, counting) && StackWeight(next) < StackWeight(stack)
    ensures met.None? ==> Pending(next, temporary, counting) == Pending(stack, temporary, counting)
    ensures met.Some? ==>
              && met.value.0 !in Pending(next, temporary, counting)
              && Pending(stack, temporary, counting) == Pending(next, temporary, counting)[met.value.0 := met.value.1]
  {
    hide Pending, Apart, StackWeight, RetainedIn;
    var Frame(at, listing) := stack[0];
    var others := stack[1..];
    assert stack == [stack[0]] + others;
    Pushed(stack[0], others, temporary, counting);
    Weights(stack[0], others);
    match listing
    case Nil =>
      NothingRetained(at, temporary, counting);
      return others, None;
    case FileNode(name, data, rest) =>
      StepFile(at, name, data, rest, others, temporary, counting);
      Weights(Frame(at, rest), others);
      next := [Frame(at, rest)] + others;
      met := if PassesOver(at + [name], temporary, counting) then None else Some((at + [name], data));
    case DirNode(name, sub, rest) =>
      StepDirectory(at, name, sub, rest, others, temporary, counting);
      Weights(Frame(at, rest), others);
      next, met := [Frame(at, rest)] + others, None;
      if !Excluded(at + [name], temporary) {
        Weights(Frame(at + [name], sub), next);
        next := [Frame(at + [name], sub)] + next;
      }
  }

  lemma NothingRetained(at: RelPath, temporary: RelPath, counting: bool)
    ensures RetainedIn(Frame(at, Nil), temporary, counting) == map[]
  {
  }

  lemma WholeTree(root: Tree, temporary: RelPath, counting: bool)
    requires IsFileSystem(root) && temporary != []
    ensures Apart([Frame([], root)], temporary, counting)
    ensures Pending([Frame([], root)], temporary, counting) == Retained(FilesOf(root, []), temporary, counting)
  {
    assert [Frame([], root)][1..] == [];
  }

  ghost predicate Splits(a: Storage, b: Storage, whole: Storage) {
    a.Keys !! b.Keys && a + b == whole
  }

  lemma NothingCopied(hash: Hash, whole: Storage, temporary: RelPath, counting: bool)
    ensures Splits(map[], whole, whole) && Describes(hash, "storage", [], [], map[]) && Volume(map[]) == TotalBytes([]) == 0
    ensures Pending([], temporary, counting) == map[] && forall a :: Splits(a, map[], whole) ==> a == whole
  {
    forall a: Storage | Splits(a, map[], whole)
      ensures a == whole
    {
      assert a + map[] == a;
    }
  }

  // ---- Sizes ----

  ghost function Sizes(storage: Storage, over: set<RelPath>): nat
    requires over <= storage.Keys
  {
    if over == {} then 0 else
      var path := Pick(over);
      |storage[path]| + Sizes(storage, over - {path})
  }

  /** The number of bytes in some files. */
  ghost function Volume(storage: Storage): nat {
    Sizes(storage, storage.Keys)
  }

  lemma {:induction false} SizesWithout(storage: Storage, over: set<RelPath>, path: RelPath)
    requires over <= storage.Keys && path in over
    ensures Sizes(storage, over) == |storage[path]| + Sizes(storage, over - {path})
    decreases over
  {
    var first := Pick(over);
    if first != path {
      SizesWithout(storage, over - {first}, path);
      SizesWithout(storage, over - {path}, first);
      assert over - {first} - {path} == over - {path} - {first};
    }
  }

  lemma {:induction false} SizesDependOnFiles(a: Storage, b: Storage, over: set<RelPath>)
    requires over <= a.Keys && over <= b.Keys && forall path :: path in over ==> a[path] == b[path]
    ensures Sizes(a, over) == Sizes(b, over)
    decreases over
  {
    if over != {} {
      SizesDependOnFiles(a, b, over - {Pick(over)});
    }
  }

  lemma OneMoreFile(storage: Storage, path: RelPath, data: Bytes)
    requires path !in storage
    ensures Volume(storage[path := data]) == Volume(storage) + |data|
  {
    var more := storage[path := data];
    SizesWithout(more, more.Keys, path);
    assert more.Keys - {path} == storage.Keys;
    SizesDependOnFiles(storage, more, storage.Keys);
  }

  lemma {:induction false} TotalOfOneMore(entries: seq<BackupEntry>, entry: BackupEntry)
    ensures TotalBytes(entries + [entry]) == TotalBytes(entries) + entry.sizeBytes
  {
    if entries == [] {
      assert entries + [entry] == [entry];
    } else {
      assert (entries + [entry])[1..] == entries[1..] + [entry];
      TotalOfOneMore(entries[1..], entry);
    }
  }

  lemma OneFileMoves(a: Storage, b: Storage, less: Storage, path: RelPath, data: Bytes, whole: Storage)
    requires Splits(a, b, whole) && path !in less && b == less[path := data]
    ensures path !in a && Splits(a[path := data], less, whole)
  {
    assert path in b;
    assert a[path := data] + less == a + b;
  }

  /** _copy_storage. The walk visits exactly the files that are not below the temporary root. */
  method CopyStorage(hash: Hash, root: Tree, temporary: RelPath)
    returns (copied: Storage, entries: seq<BackupEntry>, ghost paths: seq<RelPath>)
    requires IsFileSystem(root) && temporary != []
    ensures copied == Retained(FilesOf(root, []), temporary, false)
    ensures Describes(hash, "storage", entries, paths, copied)
    ensures TotalBytes(entries) == Volume(copied)
  {
    hide Apart, StackWeight, Retained, Pending, Describes, Volume, TotalBytes;
    copied, entries, paths := map[], [], [];
    var stack := [Frame([], root)];
    ghost var target := Retained(FilesOf(root, []), temporary, false);
    WholeTree(root, temporary, false);
    NothingCopied(hash, target, temporary, false);
    while stack != []
      invariant Apart(stack, temporary, false)
      invariant Splits(copied, Pending(stack, temporary, false), target)
      invariant Describes(hash, "storage", entries, paths, copied) && TotalBytes(entries) == Volume(copied)
      decreases StackWeight(stack)
    {
      var next, met := Advance(stack, temporary, false);
      if met.Some? {
        var (path, data) := met.value;
        OneFileMoves(copied, Pending(stack, temporary, false), Pending(next, temporary, false), path, data, target);
        OneMoreFile(copied, path, data);
        TotalOfOneMore(entries, EntryFor(hash, "storage", path, data));
        copied, entries, paths := AddFile(hash, "storage", copied, entries, paths, path, data);
      }
      stack := next;
    }
  }

  /** One copied file and its entry. */
  method AddFile(hash: Hash, top: string, copied: Storage, entries: seq<BackupEntry>, ghost paths: seq<RelPath>,
                 path: RelPath, data: Bytes)
    returns (newCopied: Storage, newEntries: seq<BackupEntry>, ghost newPaths: seq<RelPath>)
    requires Describes(hash, top, entries, paths, copied) && path !in copied
    ensures newCopied == copied[path := data] && Describes(hash, top, newEntries, newPaths, newCopied)
    ensures newEntries == entries + [EntryFor(hash, top, path, data)]
  {
    newCopied := copied[path := data];
    newEntries := entries + [EntryFor(hash, top, path, data)];
    newPaths := paths + [path];
    assert path !in paths;
  }

  /** _estimate_source_bytes. A missing storage root counts as nothing. */
  method EstimateSourceBytes(databaseSize: nat, root: Option<Tree>, temporary: RelPath) returns (total: nat)
    requires temporary != [] && (root.Some? ==> IsFileSystem(root.value))
    ensures root.None? ==> total == databaseSize
    ensures root.Some? ==>
              var files := FilesOf(root.value, []);
              total == databaseSize + Volume(Retained(files, temporary, false))
                       + if temporary in files then |files[temporary]| else 0
  {
    hide Apart, StackWeight, Retained, Pending, Volume, Describes;
    total := databaseSize;
    if root == None {
      return;
    }
    var stack := [Frame([], root.value)];
    ghost var target := Retained(FilesOf(root.value, []), temporary, true);
    ghost var counted: Storage := map[];
    WholeTree(root.value, temporary, true);
    NothingCopied((b: Bytes) => "", target, temporary, true);
    while stack != []
      invariant Apart(stack, temporary, true)
      invariant Splits(counted, Pending(stack, temporary, true), target)
      invariant total == databaseSize + Volume(counted)
      decreases StackWeight(stack)
    {
      var next, met := Advance(stack, temporary, true);
      if met.Some? {
        var (path, data) := met.value;
        OneFileMoves(counted, Pending(stack, temporary, true), Pending(next, temporary, true), path, data, target);
        OneMoreFile(counted, path, data);
        total := total + |data|;
        counted := counted[path := data];
      }
      stack := next;
    }
    EstimateAgainstCopy(FilesOf(root.value, []), temporary);
  }

  /** The estimate counts what is copied, and a file in the place of the temporary root. */
  lemma EstimateAgainstCopy(files: Storage, temporary: RelPath)
    ensures Volume(Retained(files, temporary, true))
            == Volume(Retained(files, temporary, false)) + if temporary in files then |files[temporary]| else 0
  {
    var copied, counted := Retained(files, temporary, false), Retained(files, temporary, true);
    forall path: RelPath
      ensures Omitted(path, temporary, false) <==> Omitted(path, temporary, true) || path == temporary
    {
      if temporary <= path && |path| == |temporary| {
        assert path == path[..|temporary|] == temporary;
      }
    }
    if temporary in files {
      assert counted == copied[temporary := files[temporary]];
      OneMoreFile(copied, temporary, files[temporary]);
    } else {
      assert counted == copied;
    }
  }
}
