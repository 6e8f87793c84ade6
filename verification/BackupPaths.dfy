/** Relative paths in backups: their parts, their text form, and which texts a manifest may hold
    (`app/services/backup_service.py`). */
module BackupPaths {
  import opened Prelude

  /** A relative path by its parts. */
  type RelPath = seq<string>

  /** str.split("/") */
  function SplitSlash(s: string): (pieces: seq<string>)
    ensures |pieces| > 0
  {
    if s == "" then [""]
    else
      var rest := SplitSlash(s[1..]);
      if s[0] == '/' then [""] + rest else [[s[0]] + rest[0]] + rest[1..]
  }

  predicate IsPlain(piece: string) {
    piece != "" && piece != "."
  }

  function Plain(pieces: seq<string>): RelPath {
    if pieces == [] then []
    else (if IsPlain(pieces[0]) then [pieces[0]] else []) + Plain(pieces[1..])
  }

  /** PurePosixPath(text).parts, for a text that does not start with a slash: empty and "." pieces
      are dropped, ".." is kept. */
  function Parts(text: string): RelPath {
    Plain(SplitSlash(text))
  }

  function Join(parts: RelPath): string {
    if parts == [] then ""
    else if |parts| == 1 then parts[0]
    else parts[0] + "/" + Join(parts[1..])
  }

  /** as_posix */
  function Posix(parts: RelPath): string {
    if parts == [] then "." else Join(parts)
  }

  predicate HasForbiddenCharacter(text: string) {
    '\0' in text || '\\' in text
  }

  /** _safe_relative_path: None is the refusal. */
  function SafeRelativePath(text: string): Option<RelPath> {
    if text == "" || HasForbiddenCharacter(text) then None
    else if text[0] == '/' || ".." in Parts(text) then None
    else Some(Parts(text))
  }

  // ---- A path and its text ----

  /** A piece a path can consist of. */
  predicate IsPart(part: string) {
    IsPlain(part) && '/' !in part
  }

  predicate IsPath(path: RelPath) {
    forall i :: 0 <= i < |path| ==> IsPart(path[i])
  }

  /** A path whose text a manifest accepts. */
  predicate IsSafePath(path: RelPath) {
    IsPath(path) && forall i :: 0 <= i < |path| ==> path[i] != ".." && !HasForbiddenCharacter(path[i])
  }

  lemma {:induction false} SplitPiecesHaveNoSlash(s: string)
    ensures forall i :: 0 <= i < |SplitSlash(s)| ==> '/' !in SplitSlash(s)[i]
    ensures forall i, c :: 0 <= i < |SplitSlash(s)| && c in SplitSlash(s)[i] ==> c in s
  {
    if s != "" {
      SplitPiecesHaveNoSlash(s[1..]);
      var rest := SplitSlash(s[1..]);
      assert s == [s[0]] + s[1..];
      if s[0] != '/' {
        assert SplitSlash(s)[0] == [s[0]] + rest[0];
      }
    }
  }

  lemma {:induction false} PlainPieces(pieces: seq<string>)
    ensures forall p :: p in Plain(pieces) <==> p in pieces && IsPlain(p)
  {
    if pieces != [] {
      PlainPieces(pieces[1..]);
      assert pieces == [pieces[0]] + pieces[1..];
    }
  }

  /** The parts of any text form a path, made of the characters of the text. */
  lemma PartsFormAPath(text: string)
    ensures IsPath(Parts(text))
    ensures forall i, c :: 0 <= i < |Parts(text)| && c in Parts(text)[i] ==> c in text
  {
    var pieces := SplitSlash(text);
    SplitPiecesHaveNoSlash(text);
    PlainPieces(pieces);
    forall i | 0 <= i < |Parts(text)|
      ensures Parts(text)[i] in pieces && IsPlain(Parts(text)[i])
    {
      assert Parts(text)[i] in Parts(text);
    }
  }

  lemma {:induction false} SplitOnePiece(part: string)
    requires '/' !in part
    ensures SplitSlash(part) == [part]
  {
    if part != "" {
      SplitOnePiece(part[1..]);
      assert part == [part[0]] + part[1..];
    }
  }

  lemma {:induction false} SplitFirstPiece(part: string, rest: string)
    requires '/' !in part
    ensures SplitSlash(part + "/" + rest) == [part] + SplitSlash(rest)
  {
    var s := part + "/" + rest;
    if part == "" {
      assert s[1..] == rest;
    } else {
      assert s[1..] == part[1..] + "/" + rest;
      SplitFirstPiece(part[1..], rest);
      assert part == [part[0]] + part[1..];
    }
  }

  /** The text of a path gives the path back. */
  lemma {:induction false} PartsOfText(path: RelPath)
    requires IsPath(path)
    ensures Parts(Posix(path)) == path
  {
    if path == [] {
      SplitOnePiece(".");
    } else if |path| == 1 {
      SplitOnePiece(path[0]);
      assert Plain([path[0]]) == [path[0]];
    } else {
      SplitFirstPiece(path[0], Join(path[1..]));
      PartsOfText(path[1..]);
      assert path == [path[0]] + path[1..];
    }
  }

  lemma {:induction false} TextCharacters(path: RelPath)
    requires IsPath(path)
    ensures forall c :: c in Join(path) ==> c == '/' || exists i :: 0 <= i < |path| && c in path[i]
    ensures path != [] ==> Join(path) != "" && Join(path)[0] != '/'
  {
    if |path| > 1 {
      TextCharacters(path[1..]);
      assert IsPart(path[0]);
      forall c | c in Join(path) && c != '/'
        ensures exists i :: 0 <= i < |path| && c in path[i]
      {
        if c in path[0] {
        } else {
          assert c in Join(path[1..]);
          var i :| 0 <= i < |path[1..]| && c in path[1..][i];
          assert c in path[i + 1];
        }
      }
    }
  }

  /** The text of a safe path is accepted, and read back as that path. */
  lemma SafePathsAreAccepted(path: RelPath)
    requires IsSafePath(path)
    ensures SafeRelativePath(Posix(path)) == Some(path)
  {
    PartsOfText(path);
    TextCharacters(path);
  }

  /** An accepted text is read as a safe path; written out, that path is accepted again. */
  lemma AcceptedTextsAreSafe(text: string)
    requires SafeRelativePath(text).Some?
    ensures IsSafePath(SafeRelativePath(text).value)
    ensures SafeRelativePath(Posix(SafeRelativePath(text).value)) == SafeRelativePath(text)
  {
    var path := Parts(text);
    PartsFormAPath(text);
    forall i | 0 <= i < |path|
      ensures path[i] != ".." && !HasForbiddenCharacter(path[i])
    {
      assert path[i] in path;
    }
    SafePathsAreAccepted(path);
  }

  /** Different paths have different texts. */
  lemma TextsAreInjective(a: RelPath, b: RelPath)
    requires IsPath(a) && IsPath(b) && Posix(a) == Posix(b)
    ensures a == b
  {
    PartsOfText(a);
    PartsOfText(b);
  }

  /** Splitting at slashes loses nothing. */
  lemma {:induction false} JoinOfSplit(s: string)
    ensures Join(SplitSlash(s)) == s
  {
    if s != "" {
      JoinOfSplit(s[1..]);
      var rest := SplitSlash(s[1..]);
      assert s == [s[0]] + s[1..];
      if s[0] == '/' {
        assert SplitSlash(s)[1..] == rest;
      } else if |rest| > 1 {
        assert SplitSlash(s)[1..] == rest[1..];
      }
    }
  }

  /** A text is accepted exactly when it is not empty, does not start with a slash, holds neither NUL
      nor backslash, and no piece of it between slashes is "..". */
  lemma SafeExactlyWhen(text: string)
    ensures SafeRelativePath(text).Some? <==>
              text != "" && text[0] != '/' && '\0' !in text && '\\' !in text && ".." !in SplitSlash(text)
  {
    PlainPieces(SplitSlash(text));
  }
}
