/** Catalog search: the query text and the LIKE pattern built from it
    (`app/repositories/software_repository.py`). */
module LikeSearch {
  import opened Prelude

  // ---- The LIKE predicate, section 8.5 of ISO/IEC 9075-2, with ESCAPE '\' ----

  /** Whether `s` matches `pattern`. A trailing escape character matches nothing. */
  predicate Like(s: string, pattern: string)
    decreases |s| + |pattern|
  {
    if pattern == "" then
      s == ""
    else if pattern[0] == '%' then
      Like(s, pattern[1..]) || (s != "" && Like(s[1..], pattern))
    else if pattern[0] == '\\' then
      |pattern| > 1 && s != "" && s[0] == pattern[1] && Like(s[1..], pattern[2..])
    else
      s != "" && (pattern[0] == '_' || s[0] == pattern[0]) && Like(s[1..], pattern[1..])
  }

  function LowerChar(c: char): char {
    if 'A' <= c <= 'Z' then (c as int + 32) as char else c
  }

  /** SQLite's lower(): ASCII letters only. */
  function Lower(s: string): string {
    if s == "" then "" else [LowerChar(s[0])] + Lower(s[1..])
  }

  /** The case-insensitive form: both sides are lowered before LIKE compares them. */
  predicate ILike(s: string, pattern: string) {
    Like(Lower(s), Lower(pattern))
  }

  /** `q` occurs in `s` as a contiguous substring. */
  ghost predicate Occurs(q: string, s: string) {
    exists k: nat :: k <= |s| && q <= s[k..]
  }

  // ---- Escaping ----

  /** str.replace with a one-character needle. */
  function Replace(s: string, needle: char, with: string): string {
    if s == "" then "" else
      (if s[0] == needle then with else [s[0]]) + Replace(s[1..], needle, with)
  }

  /** escape_like: three replacements in sequence, the escape character first. */
  function EscapeLike(value: string): string {
    Replace(Replace(Replace(value, '\\', "\\\\"), '%', "\\%"), '_', "\\_")
  }

  function SearchPattern(query: string): string {
    "%" + EscapeLike(query) + "%"
  }

  function EscapedChar(c: char): string {
    if c in "\\%_" then ['\\', c] else [c]
  }

  /** What the three replacements amount to: each special character escaped once. */
  function EscapeEach(s: string): string {
    if s == "" then "" else
      EscapedChar(s[0]) + EscapeEach(s[1..])
  }

  lemma {:induction false} ReplaceConcat(a: string, b: string, needle: char, with: string)
    ensures Replace(a + b, needle, with) == Replace(a, needle, with) + Replace(b, needle, with)
  {
    if a == "" {
      assert a + b == b;
    } else {
      assert (a + b)[1..] == a[1..] + b;
      ReplaceConcat(a[1..], b, needle, with);
    }
  }

  lemma {:induction false} EscapeIsOnePass(s: string)
    ensures EscapeLike(s) == EscapeEach(s)
  {
    if s != "" {
      var head, rest := [s[0]], s[1..];
      var r1 := Replace(rest, '\\', "\\\\");
      var h1 := Replace(head, '\\', "\\\\");
      assert head + rest == s;
      ReplaceConcat(head, rest, '\\', "\\\\");
      ReplaceConcat(h1, r1, '%', "\\%");
      var h2, r2 := Replace(h1, '%', "\\%"), Replace(r1, '%', "\\%");
      ReplaceConcat(h2, r2, '_', "\\_");
      EscapeHead(s[0]);
      EscapeIsOnePass(rest);
    }
  }

  lemma EscapeHead(c: char)
    ensures EscapeLike([c]) == EscapedChar(c)
  {
    var escaped := ['\\', c];
    assert escaped[1..] == [c];
    if c == '\\' {
      assert Replace([c], '\\', "\\\\") == escaped;
      ReplaceAbsent(escaped, '%', "\\%");
      ReplaceAbsent(escaped, '_', "\\_");
    } else if c == '%' {
      assert Replace([c], '%', "\\%") == escaped;
      ReplaceAbsent(escaped, '_', "\\_");
    }
  }

  lemma {:induction false} ReplaceAbsent(s: string, needle: char, with: string)
    requires needle !in s
    ensures Replace(s, needle, with) == s
  {
    if s != "" {
      ReplaceAbsent(s[1..], needle, with);
    }
  }

  lemma {:induction false} EscapeThenLower(q: string)
    ensures Lower(EscapeEach(q)) == EscapeEach(Lower(q))
  {
    if q != "" {
      EscapeThenLower(q[1..]);
      LowerConcat(EscapedChar(q[0]), EscapeEach(q[1..]));
      if q[0] in "\\%_" {
        assert EscapedChar(q[0])[1..] == [q[0]];
      }
    }
  }

  lemma {:induction false} LowerConcat(a: string, b: string)
    ensures Lower(a + b) == Lower(a) + Lower(b)
  {
    if a == "" {
      assert a + b == b;
    } else {
      assert (a + b)[1..] == a[1..] + b;
      LowerConcat(a[1..], b);
    }
  }

  // ---- Matching ----

  /** An escaped character matches itself and nothing else. */
  lemma EscapedCharMatches(s: string, c: char, rest: string)
    ensures Like(s, EscapedChar(c) + rest) <==> s != "" && s[0] == c && Like(s[1..], rest)
  {
    var pattern := EscapedChar(c) + rest;
    assert pattern[|EscapedChar(c)|..] == rest;
    assert pattern[0] == EscapedChar(c)[0];
    if c in "\\%_" {
      assert pattern[1] == c;
    }
  }

  /** An escaped text followed by `rest` matches exactly the texts that start with it. */
  lemma {:induction false} EscapedMatchesItself(s: string, q: string, rest: string)
    ensures Like(s, EscapeEach(q) + rest) <==> q <= s && Like(s[|q|..], rest)
  {
    hide Like;
    if q == "" {
      assert EscapeEach(q) + rest == rest && s[0..] == s;
    } else {
      assert EscapeEach(q) + rest == EscapedChar(q[0]) + (EscapeEach(q[1..]) + rest);
      EscapedCharMatches(s, q[0], EscapeEach(q[1..]) + rest);
      if s != "" {
        EscapedMatchesItself(s[1..], q[1..], rest);
        FirstAndRest(q, s);
      }
    }
  }

  lemma FirstAndRest(q: string, s: string)
    requires q != "" && s != ""
    ensures q <= s <==> s[0] == q[0] && q[1..] <= s[1..]
    ensures q <= s ==> s[|q|..] == s[1..][|q[1..]|..]
  {
    assert q == [q[0]] + q[1..] && s == [s[0]] + s[1..];
  }

  lemma {:induction false} PercentSkips(s: string, rest: string)
    ensures Like(s, "%" + rest) <==> exists k: nat :: k <= |s| && Like(s[k..], rest)
  {
    assert ("%" + rest)[1..] == rest;
    if s != "" {
      PercentSkips(s[1..], rest);
      if k: nat :| k <= |s| - 1 && Like(s[1..][k..], rest) {
        assert s[1..][k..] == s[k + 1..];
      }
      if k: nat :| k <= |s| && Like(s[k..], rest) {
        assert k > 0 ==> s[k..] == s[1..][k - 1..];
        assert k == 0 ==> s[k..] == s;
      }
    } else {
      assert s[0..] == s;
    }
  }

  /** The pattern built from any query matches exactly the texts that contain it. */
  lemma SearchFindsSubstrings(q: string, s: string)
    ensures ILike(s, SearchPattern(q)) <==> Occurs(Lower(q), Lower(s))
  {
    var lq, ls := Lower(q), Lower(s);
    EscapeIsOnePass(q);
    EscapeThenLower(q);
    LowerConcat("%" + EscapeLike(q), "%");
    LowerConcat("%", EscapeLike(q));
    assert Lower("%") == "%";
    var tail := EscapeEach(lq) + "%";
    assert Lower(SearchPattern(q)) == "%" + tail;
    PercentSkips(ls, tail);
    forall k: nat | k <= |ls|
      ensures Like(ls[k..], tail) <==> lq <= ls[k..]
    {
      EscapedMatchesItself(ls[k..], lq, "%");
      if lq <= ls[k..] {
        PercentMatchesAll(ls[k..][|lq|..]);
      }
    }
  }

  lemma {:induction false} PercentMatchesAll(s: string)
    ensures Like(s, "%")
  {
    assert "%"[1..] == "";
    if s != "" {
      PercentMatchesAll(s[1..]);
    }
  }

  // ---- Query normalisation ----

  datatype QueryError = TooShort | TooLong

  /** The characters str.split() treats as whitespace. */
  predicate IsSpace(c: char) {
    || '\t' <= c <= '\r' || '\U{1c}' <= c <= ' ' || c == '\U{85}' || c == '\U{a0}' || c == '\U{1680}'
    || '\U{2000}' <= c <= '\U{200a}' || c == '\U{2028}' || c == '\U{2029}' || c == '\U{202f}'
    || c == '\U{205f}' || c == '\U{3000}'
  }

  predicate IsWord(w: string) {
    w != "" && forall i :: 0 <= i < |w| ==> !IsSpace(w[i])
  }

  /** Length of the run of non-space characters `s` starts with. */
  function WordLength(s: string): (n: nat)
    ensures n <= |s|
    ensures forall i :: 0 <= i < n ==> !IsSpace(s[i])
    ensures n < |s| ==> IsSpace(s[n])
  {
    if s == "" || IsSpace(s[0]) then 0 else 1 + WordLength(s[1..])
  }

  /** str.split() */
  function Words(s: string): (words: seq<string>)
    ensures forall i :: 0 <= i < |words| ==> IsWord(words[i])
  {
    if s == "" then []
    else if IsSpace(s[0]) then Words(s[1..])
    else
      var n := WordLength(s);
      [s[..n]] + Words(s[n..])
  }

  /** " ".join(words) */
  function Join(words: seq<string>): string {
    if words == [] then ""
    else if |words| == 1 then words[0]
    else words[0] + " " + Join(words[1..])
  }

  function NormalizeSearchQuery(query: Option<string>): Result<Option<string>, QueryError> {
    if query == None then Success(None) else
      var normalized := Join(Words(query.value));
      if normalized == "" then Success(None)
      else if |normalized| < 2 then Failure(TooShort)
      else if |normalized| > 100 then Failure(TooLong)
      else Success(Some(normalized))
  }

  lemma {:induction false} SplitOfJoin(words: seq<string>)
    requires forall i :: 0 <= i < |words| ==> IsWord(words[i])
    ensures Words(Join(words)) == words
  {
    if words != [] {
      var w := words[0];
      var s := Join(words);
      assert s[..|w|] == w;
      assert !IsSpace(s[0]) by { assert s[0] == w[0]; }
      WordEndsAt(s, |w|);
      if |words| > 1 {
        assert s[|w|..] == " " + Join(words[1..]);
        assert s[|w|..][1..] == Join(words[1..]);
        SplitOfJoin(words[1..]);
        assert words == [w] + words[1..];
      } else {
        assert s[|w|..] == "";
      }
    }
  }

  lemma WordEndsAt(s: string, n: nat)
    requires n <= |s| && (forall i :: 0 <= i < n ==> !IsSpace(s[i])) && (n < |s| ==> IsSpace(s[n]))
    ensures WordLength(s) == n
  {
  }

  /** The catalog page normalises a query that its repository normalises again: the second pass
      accepts whatever the first returned and changes nothing. */
  lemma NormalizingTwiceIsHarmless(query: Option<string>)
    requires NormalizeSearchQuery(query).Success?
    ensures NormalizeSearchQuery(NormalizeSearchQuery(query).value) == NormalizeSearchQuery(query)
  {
    if query.Some? {
      SplitOfJoin(Words(query.value));
    }
  }

  /** Any white space separates words, and what lies between is one word: this fixes the splitting of
      every text. */
  lemma {:induction false} SpacesSeparateWords(a: string, c: char, b: string)
    requires IsSpace(c)
    ensures Words(a + [c] + b) == Words(a) + Words(b)
    decreases |a|
  {
    hide IsSpace;
    var s := a + [c] + b;
    if a == "" {
      assert s[1..] == b;
    } else if IsSpace(a[0]) {
      assert s[1..] == a[1..] + [c] + b;
      SpacesSeparateWords(a[1..], c, b);
    } else {
      var n := WordLength(a);
      assert a[0] == s[0];
      assert forall i :: 0 <= i < n ==> s[i] == a[i];
      assert n < |s| && IsSpace(s[n]);
      WordEndsAt(s, n);
      assert s[..n] == a[..n] && s[n..] == a[n..] + [c] + b;
      SpacesSeparateWords(a[n..], c, b);
    }
  }

  lemma OneWord(w: string)
    requires IsWord(w)
    ensures Words(w) == [w]
  {
    SplitOfJoin([w]);
  }

  lemma {:induction false} NoWordsInSpaces(s: string)
    ensures Words(s) == [] <==> forall i :: 0 <= i < |s| ==> IsSpace(s[i])
  {
    if s != "" && IsSpace(s[0]) {
      NoWordsInSpaces(s[1..]);
      assert forall i :: 1 <= i < |s| ==> s[i] == s[1..][i - 1];
    }
  }

  lemma JoinIsEmptyForNoWords(words: seq<string>)
    requires forall i :: 0 <= i < |words| ==> IsWord(words[i])
    ensures Join(words) == "" <==> words == []
  {
    if words != [] {
      assert IsWord(words[0]);
    }
  }

  /** A query of white space alone is no query; any other keeps its words, one space apart, and is
      accepted exactly from 2 to 100 characters of that form. */
  lemma AcceptedQueries(text: string, q: string)
    ensures NormalizeSearchQuery(None) == Success(None)
    ensures NormalizeSearchQuery(Some(text)) == Success(None) <==> forall i :: 0 <= i < |text| ==> IsSpace(text[i])
    ensures NormalizeSearchQuery(Some(text)) == Success(Some(q))
            <==> 2 <= |q| <= 100 && Words(q) == Words(text) && q == Join(Words(q))
    ensures NormalizeSearchQuery(Some(text)) == Failure(TooShort) <==> |Join(Words(text))| == 1
    ensures NormalizeSearchQuery(Some(text)) == Failure(TooLong) <==> |Join(Words(text))| > 100
  {
    NoWordsInSpaces(text);
    JoinIsEmptyForNoWords(Words(text));
    SplitOfJoin(Words(text));
  }

  // ---- Case, and why wildcards are escaped ----

  /** Two characters are found alike exactly when they are the same, or the two cases of one letter. */
  lemma SameLetters(c: char, d: char)
    ensures LowerChar(c) == LowerChar(d)
            <==> c == d || ('A' <= c <= 'Z' && d as int == c as int + 32) || ('A' <= d <= 'Z' && c as int == d as int + 32)
  {
  }

  /** Without escaping, a query of one underscore would find every text but the empty one, and a
      query of one percent sign every text; escaped, they find the texts with that character. */
  lemma WildcardsNeedEscaping(s: string)
    ensures Like(s, "%" + "_" + "%") <==> s != ""
    ensures Like(s, "%" + "%" + "%")
    ensures ILike(s, SearchPattern("_")) <==> '_' in Lower(s)
    ensures ILike(s, SearchPattern("%")) <==> '%' in Lower(s)
  {
    PercentSkips(s, "_%");
    PercentSkips(s, "%%");
    PercentSkips(s, "%");
    assert s[0..] == s;
    assert ("_%")[1..] == "%";
    forall t: string | t != ""
      ensures Like(t, "_%")
    {
      PercentMatchesAll(t[1..]);
    }
    PercentMatchesAll(s);
    assert "%" + "_" + "%" == "%" + "_%" && "%" + "%" + "%" == "%" + ("%" + "%");
    PercentSkips(s, "%" + "%");
    OneCharacterOccurs('_', s);
    OneCharacterOccurs('%', s);
  }

  lemma OneCharacterOccurs(c: char, s: string)
    requires LowerChar(c) == c
    ensures ILike(s, SearchPattern([c])) <==> c in Lower(s)
  {
    var ls := Lower(s);
    SearchFindsSubstrings([c], s);
    assert Lower([c]) == [c] by { assert [c][1..] == ""; }
    if c in ls {
      var k :| 0 <= k < |ls| && ls[k] == c;
      assert [c] <= ls[k..];
    }
    if k: nat :| k <= |ls| && [c] <= ls[k..] {
      assert ls[k] == c;
    }
  }
}
