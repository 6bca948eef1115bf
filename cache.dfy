/**
 * Cache-key derivation (cache/cache.go): glob expansion, then a SHA-256 digest of the
 * matched files' contents in sorted-path order, formatted as lowercase hex.
 *
 * `filepath.Glob`, reading a file and SHA-256 are oracles passed in as functions: the model
 * fixes what the code does with their answers, not the answers themselves.
 */
module Cache {
  import opened Common
  import opened Errors
  import opened Lex
  import Hex

  type Digest = Hex.Digest

  /** `filepath.Glob`: the matches of one pattern, or an error for a malformed pattern. */
  type Glob = string -> Result<seq<string>, Error>
  /** `os.Open` followed by `io.Copy` of the whole file: its bytes, or the first open or read error. */
  type ReadFile = string -> Result<seq<byte>, Error>
  /** SHA-256 (section 6.2 of FIPS 180-4), left uninterpreted. */
  type Sha256 = seq<byte> -> Digest

  // ---------------------------------------------------------------- MatchPatterns

  /** What `MatchPatterns` returns: the per-pattern matches concatenated in pattern order, or the first glob error. */
  function Matches(patterns: seq<string>, glob: Glob): Result<seq<string>, Error>
    decreases |patterns|
  {
    if patterns == [] then Ok([])
    else Cat(Matches(patterns[..|patterns| - 1], glob), glob(patterns[|patterns| - 1]))
  }

  /** cache/cache.go:46-58. */
  method MatchPatterns(patterns: seq<string>, glob: Glob) returns (r: Result<seq<string>, Error>)
    ensures r == Matches(patterns, glob)
    ensures patterns == [] ==> r == Ok([])
  {
    var matches: seq<string> := [];
    var i := 0;
    while i < |patterns|
      invariant 0 <= i <= |patterns|
      invariant Matches(patterns[..i], glob) == Ok(matches)
    {
      assert patterns[..i + 1][..i] == patterns[..i];
      var files := glob(patterns[i]);
      if files.Failure? {
        assert patterns == patterns[..i + 1] + patterns[i + 1..];
        MatchesFailedPrefix(patterns[..i + 1], patterns[i + 1..], glob);
        return Failure(files.error);
      }
      matches := matches + files.value;
      i := i + 1;
    }
    assert patterns[..i] == patterns;
    return Ok(matches);
  }

  /** Splitting the pattern list splits the result: matches are concatenated, with no deduplication. */
  lemma {:induction false} MatchesAppend(ps: seq<string>, qs: seq<string>, glob: Glob)
    ensures Matches(ps + qs, glob) == Cat(Matches(ps, glob), Matches(qs, glob))
    decreases |qs|
  {
    if qs == [] {
      assert ps + qs == ps;
      CatUnit(Matches(ps, glob));
    } else {
      var qs' := qs[..|qs| - 1];
      assert (ps + qs)[..|ps + qs| - 1] == ps + qs';
      assert (ps + qs)[|ps + qs| - 1] == qs[|qs| - 1];
      MatchesAppend(ps, qs', glob);
      CatAssoc(Matches(ps, glob), Matches(qs', glob), glob(qs[|qs| - 1]));
    }
  }

  /** A single pattern contributes exactly its glob result. */
  lemma MatchesOne(p: string, glob: Glob)
    ensures Matches([p], glob) == glob(p)
  {
    assert [p][..0] == [];
    CatUnit(glob(p));
  }

  /** A pattern that matches nothing can be dropped without changing the result, errors included. */
  lemma ZeroMatchPatternAddsNothing(ps: seq<string>, p: string, qs: seq<string>, glob: Glob)
    requires glob(p) == Ok([])
    ensures Matches(ps + [p] + qs, glob) == Matches(ps + qs, glob)
  {
    MatchesAppend(ps + [p], qs, glob);
    MatchesAppend(ps, [p], glob);
    MatchesAppend(ps, qs, glob);
    MatchesOne(p, glob);
    CatUnit(Matches(ps, glob));
    CatAssoc(Matches(ps, glob), Ok([]), Matches(qs, glob));
    CatUnit(Matches(qs, glob));
  }

  /** The first failing pattern decides the error; later patterns are never consulted. */
  lemma FirstGlobErrorWins(ps: seq<string>, p: string, qs: seq<string>, glob: Glob)
    requires Matches(ps, glob).Ok? && glob(p).Failure?
    ensures Matches(ps + [p] + qs, glob) == Failure(glob(p).error)
  {
    MatchesAppend(ps + [p], qs, glob);
    MatchesAppend(ps, [p], glob);
    MatchesOne(p, glob);
  }

  /** Once a prefix of the patterns fails, the rest cannot change the outcome. */
  lemma MatchesFailedPrefix(ps: seq<string>, qs: seq<string>, glob: Glob)
    requires Matches(ps, glob).Failure?
    ensures Matches(ps + qs, glob) == Matches(ps, glob)
  {
    MatchesAppend(ps, qs, glob);
  }

  /** When every glob succeeds, each match appears as often as the patterns produced it. */
  lemma {:induction false} MatchesCounts(ps: seq<string>, glob: Glob, x: string)
    requires forall i :: 0 <= i < |ps| ==> glob(ps[i]).Ok?
    ensures Matches(ps, glob).Ok?
    ensures multiset(Matches(ps, glob).value)[x] == CountAll(ps, glob, x)
    decreases |ps|
  {
    if ps != [] {
      MatchesCounts(ps[..|ps| - 1], glob, x);
    }
  }

  /** Occurrences of `x` over the glob results of all patterns. */
  function CountAll(ps: seq<string>, glob: Glob, x: string): nat
    requires forall i :: 0 <= i < |ps| ==> glob(ps[i]).Ok?
    decreases |ps|
  {
    if ps == [] then 0
    else CountAll(ps[..|ps| - 1], glob, x) + multiset(glob(ps[|ps| - 1]).value)[x]
  }

  // ---------------------------------------------------------------- hashing

  /** The bytes fed to the hash: file contents in the given order, undelimited, or the first read error. */
  function ReadAll(files: seq<string>, read: ReadFile): Result<seq<byte>, Error>
    decreases |files|
  {
    if files == [] then Ok([])
    else Cat(ReadAll(files[..|files| - 1], read), read(files[|files| - 1]))
  }

  /** Concatenating file lists concatenates hash inputs: there is no delimiter between files. */
  lemma {:induction false} ReadAllAppend(a: seq<string>, b: seq<string>, read: ReadFile)
    ensures ReadAll(a + b, read) == Cat(ReadAll(a, read), ReadAll(b, read))
    decreases |b|
  {
    if b == [] {
      assert a + b == a;
      CatUnit(ReadAll(a, read));
    } else {
      var b' := b[..|b| - 1];
      assert (a + b)[..|a + b| - 1] == a + b';
      assert (a + b)[|a + b| - 1] == b[|b| - 1];
      ReadAllAppend(a, b', read);
      CatAssoc(ReadAll(a, read), ReadAll(b', read), read(b[|b| - 1]));
    }
  }

  lemma ReadAllOne(f: string, read: ReadFile)
    ensures ReadAll([f], read) == read(f)
  {
    assert [f][..0] == [];
    CatUnit(read(f));
  }

  /** A file with empty content contributes nothing to the hash input. */
  lemma EmptyFileContributesNothing(a: seq<string>, f: string, b: seq<string>, read: ReadFile)
    requires read(f) == Ok([])
    ensures ReadAll(a + [f] + b, read) == ReadAll(a + b, read)
  {
    ReadAllAppend(a + [f], b, read);
    ReadAllAppend(a, [f], read);
    ReadAllAppend(a, b, read);
    ReadAllOne(f, read);
    CatUnit(ReadAll(a, read));
    CatAssoc(ReadAll(a, read), Ok([]), ReadAll(b, read));
    CatUnit(ReadAll(b, read));
  }

  /** Any unreadable file makes the hash input an error: the first unreadable one in order. */
  lemma FirstReadErrorWins(a: seq<string>, f: string, b: seq<string>, read: ReadFile)
    requires ReadAll(a, read).Ok? && read(f).Failure?
    ensures ReadAll(a + [f] + b, read) == Failure(read(f).error)
  {
    ReadAllAppend(a + [f], b, read);
    ReadAllAppend(a, [f], read);
    ReadAllOne(f, read);
  }

  /** The loop's early return: the first unreadable file in the list decides the result. */
  lemma ReadErrorAt(files: seq<string>, i: nat, read: ReadFile)
    requires i < |files| && ReadAll(files[..i], read).Ok? && read(files[i]).Failure?
    ensures ReadAll(files, read) == Failure(read(files[i]).error)
  {
    var upto := files[..i + 1];
    assert upto[..i] == files[..i] && upto[i] == files[i];
    assert ReadAll(upto, read) == Failure(read(files[i]).error);
    assert upto + files[i + 1..] == files;
    ReadAllAppend(upto, files[i + 1..], read);
  }

  /** The hash input is an error exactly when some listed file cannot be read. */
  lemma {:induction false} ReadAllFailsIff(files: seq<string>, read: ReadFile)
    ensures ReadAll(files, read).Failure? <==> exists i :: 0 <= i < |files| && read(files[i]).Failure?
    decreases |files|
  {
    if files != [] {
      var init := files[..|files| - 1];
      ReadAllFailsIff(init, read);
      if exists i :: 0 <= i < |init| && read(init[i]).Failure? {
        var i :| 0 <= i < |init| && read(init[i]).Failure?;
        assert files[i] == init[i];
      }
      if exists i :: 0 <= i < |files| && read(files[i]).Failure? {
        var i :| 0 <= i < |files| && read(files[i]).Failure?;
        if i < |init| { assert init[i] == files[i]; }
      }
    }
  }

  /**
   * Changing the content of one listed file, keeping its length, changes the bytes that are
   * hashed (whether the digest then differs is up to SHA-256).
   */
  lemma ChangedFileChangesHashInput(a: seq<string>, f: string, b: seq<string>, read: ReadFile, read': ReadFile)
    requires f !in a
    requires forall g :: g != f ==> read'(g) == read(g)
    requires read(f).Ok? && read'(f).Ok?
    requires |read(f).value| == |read'(f).value| && read(f).value != read'(f).value
    requires ReadAll(a + [f] + b, read).Ok? && ReadAll(a + [f] + b, read').Ok?
    ensures ReadAll(a + [f] + b, read) != ReadAll(a + [f] + b, read')
  {
    SameReadAll(a, read, read', f);
    ReadAllAppend(a + [f], b, read);
    ReadAllAppend(a + [f], b, read');
    ReadAllAppend(a, [f], read);
    ReadAllAppend(a, [f], read');
    ReadAllOne(f, read);
    ReadAllOne(f, read');
    var x := ReadAll(a, read).value;
    var c, c' := read(f).value, read'(f).value;
    var y, y' := ReadAll(b, read).value, ReadAll(b, read').value;
    var s, s' := x + c + y, x + c' + y';
    assert s[|x|..|x| + |c|] == c;
    assert s'[|x|..|x| + |c|] == c';
  }

  /** Two oracles that agree on the listed files give the same hash input. */
  lemma {:induction false} SameReadAll(a: seq<string>, read: ReadFile, read': ReadFile, f: string)
    requires f !in a
    requires forall g :: g != f ==> read'(g) == read(g)
    ensures ReadAll(a, read) == ReadAll(a, read')
    decreases |a|
  {
    if a != [] {
      SameReadAll(a[..|a| - 1], read, read', f);
    }
  }

  /** A running SHA-256 computation (`sha256.New()`); its state is the bytes written so far. */
  class Hasher {
    var absorbed: seq<byte>
    const sha: Sha256

    constructor (sha: Sha256)
      ensures absorbed == [] && this.sha == sha
    {
      absorbed := [];
      this.sha := sha;
    }

    /** `h.Write(data)`, as done by `io.Copy(h, f)`. */
    method Write(data: seq<byte>)
      modifies this
      ensures absorbed == old(absorbed) + data
    {
      absorbed := absorbed + data;
    }

    /** `h.Sum(nil)`. */
    function Sum(): Digest
      reads this
    {
      sha(absorbed)
    }
  }

  // ---------------------------------------------------------------- formatting

  /** cache/cache.go:38-42: the digest in hex, prefixed by `key` and "-" when `key` is not empty. */
  function FormatKey(key: string, digest: Digest): (r: string)
    ensures key == "" ==> |r| == 64
    ensures key != "" ==> |r| == |key| + 65 && r[..|key|] == key && r[|key|] == '-'
    ensures r[|r| - 64..] == Hex.Encode(digest)
  {
    var d := Hex.Encode(digest);
    if key == "" then d else key + "-" + d
  }

  /** Splits a formatted key back into its literal part and its digest. */
  function ParseKey(r: string): Option<(string, Digest)>
  {
    if |r| < 64 || |r| == 65 then None
    else
      var d := r[|r| - 64..];
      if !(forall k :: 0 <= k < |d| ==> Hex.IsHexDigit(d[k])) then None
      else if |r| == 64 then Some(("", Hex.Decode(d)))
      else if r[|r| - 65] != '-' then None
      else Some((r[..|r| - 65], Hex.Decode(d)))
  }

  /** The key format loses nothing: the literal and the digest can be read back. */
  lemma ParseFormatKey(key: string, digest: Digest)
    ensures ParseKey(FormatKey(key, digest)) == Some((key, digest))
  {
    Hex.DecodeEncode(digest);
    var r := FormatKey(key, digest);
    if key != "" {
      assert r[..|r| - 65] == key;
    }
  }

  /** For an empty literal the key is nothing but 64 lowercase hex digits. */
  lemma EmptyLiteralKeyIsHexDigest(digest: Digest)
    ensures |FormatKey("", digest)| == 64
    ensures forall k :: 0 <= k < 64 ==> Hex.IsHexDigit(FormatKey("", digest)[k])
  {
  }

  // ---------------------------------------------------------------- GenerateCacheKey

  /** The key for a matched file list: sort, hash the contents in that order, format. */
  function KeyFromFiles(key: string, files: seq<string>, read: ReadFile, sha: Sha256): Result<string, Error>
  {
    match ReadAll(SortStrings(files), read)
    case Failure(e) => Failure(e)
    case Ok(bytes) => Ok(FormatKey(key, sha(bytes)))
  }

  /** What `GenerateCacheKey` returns. */
  function CacheKey(key: string, patterns: seq<string>, glob: Glob, read: ReadFile, sha: Sha256): Result<string, Error>
  {
    if patterns == [] then Ok(key)
    else
      match Matches(patterns, glob)
      case Failure(e) => Failure(e)
      case Ok(files) => KeyFromFiles(key, files, read, sha)
  }

  /** cache/cache.go:13-44. */
  method GenerateCacheKey(key: string, patterns: seq<string>, glob: Glob, read: ReadFile, sha: Sha256)
    returns (r: Result<string, Error>)
    ensures r == CacheKey(key, patterns, glob, read, sha)
    ensures patterns == [] ==> r == Ok(key)
    ensures Matches(patterns, glob).Failure? && patterns != [] ==> r == Failure(Matches(patterns, glob).error)
  {
    if |patterns| == 0 {
      return Ok(key);
    }
    var matched := MatchPatterns(patterns, glob);
    if matched.Failure? {
      return Failure(matched.error);
    }
    var files := SortStrings(matched.value);
    var h := new Hasher(sha);
    var i := 0;
    while i < |files|
      invariant 0 <= i <= |files|
      invariant ReadAll(files[..i], read) == Ok(h.absorbed)
    {
      assert files[..i + 1][..i] == files[..i];
      var data := read(files[i]);
      if data.Failure? {
        ReadErrorAt(files, i, read);
        return Failure(data.error);
      }
      h.Write(data.value);
      i := i + 1;
    }
    assert files[..i] == files;
    return Ok(FormatKey(key, h.Sum()));
  }

  /** Patterns that match nothing still hash: the key is `key` plus the digest of no bytes, unlike an empty pattern list. */
  lemma NoMatchesStillHashes(key: string, patterns: seq<string>, glob: Glob, read: ReadFile, sha: Sha256)
    requires patterns != [] && Matches(patterns, glob) == Ok([])
    ensures CacheKey(key, patterns, glob, read, sha) == Ok(FormatKey(key, sha([])))
  {
    assert SortStrings([]) == [];
  }

  /** Once the globs succeed, the key fails exactly when some matched file cannot be read. */
  lemma CacheKeyFailsIff(key: string, patterns: seq<string>, glob: Glob, read: ReadFile, sha: Sha256)
    requires patterns != [] && Matches(patterns, glob).Ok?
    ensures CacheKey(key, patterns, glob, read, sha).Failure? <==>
      exists f :: f in Matches(patterns, glob).value && read(f).Failure?
  {
    var files := Matches(patterns, glob).value;
    var sorted := SortStrings(files);
    ReadAllFailsIff(sorted, read);
    if exists i :: 0 <= i < |sorted| && read(sorted[i]).Failure? {
      var i :| 0 <= i < |sorted| && read(sorted[i]).Failure?;
      assert sorted[i] in multiset(sorted);
      assert sorted[i] in files;
    }
    if exists f :: f in files && read(f).Failure? {
      var f :| f in files && read(f).Failure?;
      assert f in multiset(files);
      assert f in multiset(sorted);
      var i :| 0 <= i < |sorted| && sorted[i] == f;
    }
  }

  /** The key depends on the matched files only as a multiset: enumeration order does not matter. */
  lemma KeyIgnoresMatchOrder(key: string, a: seq<string>, b: seq<string>, read: ReadFile, sha: Sha256)
    requires multiset(a) == multiset(b)
    ensures KeyFromFiles(key, a, read, sha) == KeyFromFiles(key, b, read, sha)
  {
    SortIgnoresOrder(a, b);
  }

  /** Reordering the patterns permutes the matches, so it leaves the key unchanged. */
  lemma KeyIgnoresPatternOrder(key: string, ps: seq<string>, qs: seq<string>, glob: Glob, read: ReadFile, sha: Sha256)
    requires Matches(ps + qs, glob).Ok?
    ensures Matches(qs + ps, glob).Ok?
    ensures CacheKey(key, ps + qs, glob, read, sha) == CacheKey(key, qs + ps, glob, read, sha)
  {
    MatchesAppend(ps, qs, glob);
    MatchesAppend(qs, ps, glob);
    var m, n := Matches(ps, glob).value, Matches(qs, glob).value;
    assert multiset(m + n) == multiset(n + m);
    KeyIgnoresMatchOrder(key, m + n, n + m, read, sha);
    if ps + qs == [] {
      assert qs + ps == [];
    } else {
      assert qs + ps != [];
    }
  }
}
