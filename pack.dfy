/**
 * `TarFiles` (tar/tar.go:12-86): every root path is cleaned and walked in the lexical
 * pre-order of `filepath.Walk` without following symbolic links; the walk callback writes one
 * entry per node into the tar writer; a root whose walk fails is reported and skipped; the
 * writer is closed at the end and only that result is returned.
 */
module Pack {
  import opened Common
  import opened Paths
  import opened Errors
  import opened Fs
  import opened Lex
  import opened TarFormat

  /** What one root's walk works on: the file system, the working directory, the cleaned root, the failing calls. */
  datatype Ctx = Ctx(fs: FsMap, cwd: Key, root: Path, fails: Faults)

  /** What `TarFiles` leaves in its output: the entries written and whether the end marker went out. */
  datatype Packed = Packed(entries: seq<Entry>, terminated: bool)

  /** `b` is `a` with entries appended. */
  predicate Extends(a: seq<Entry>, b: seq<Entry>) { |a| <= |b| && b[..|a|] == a }

  lemma ExtendsTrans(a: seq<Entry>, b: seq<Entry>, c: seq<Entry>)
    requires Extends(a, b) && Extends(b, c)
    ensures Extends(a, c)
  {
    assert c[..|a|] == c[..|b|][..|a|];
  }

  // ---------------------------------------------------------------- the operating system calls

  /** `os.Lstat` of a key: a failing call, a missing node, or the node itself. */
  function LstatAt(c: Ctx, k: Key): (r: Result<Node, Error>)
    ensures r.Ok? <==> c.fails(Lstat(k)).None? && Lookup(c.fs, k).Some?
    ensures r.Ok? ==> r.value == Lookup(c.fs, k).value
  {
    match c.fails(Lstat(k))
    case Some(f) => Failure(f.err)
    case None =>
      match Lookup(c.fs, k)
      case Some(n) => Ok(n)
      case None => Failure(PathError("lstat", k, ENOENT))
  }

  /** `os.Readlink(name)`, with a relative `name` taken from the working directory. */
  function ReadLink(c: Ctx, name: Path): (r: Result<Path, Error>)
    ensures r.Ok? <==> (c.fails(Readlink(Resolve(c.cwd, name))).None? && Lookup(c.fs, Resolve(c.cwd, name)).Some?
      && Lookup(c.fs, Resolve(c.cwd, name)).value.Symlink?)
    ensures r.Ok? ==> r.value == Lookup(c.fs, Resolve(c.cwd, name)).value.target
  {
    var k := Resolve(c.cwd, name);
    match c.fails(Readlink(k))
    case Some(f) => Failure(f.err)
    case None =>
      match Lookup(c.fs, k)
      case Some(Symlink(t)) => Ok(t)
      case Some(_) => Failure(PathError("readlink", k, EINVAL))
      case None => Failure(PathError("readlink", k, ENOENT))
  }

  /** The plain names of the nodes directly inside directory `key`. */
  function NameSet(fs: FsMap, key: Key): set<string>
  {
    set k | k in fs.Keys && |k| == |key| + 1 && k[..|key|] == key && Plain(k[|key|]) :: k[|key|]
  }

  lemma NameSetMember(fs: FsMap, key: Key, n: string)
    ensures n in NameSet(fs, key) <==> key + [n] in fs && Plain(n)
  {
    var k := key + [n];
    assert k[..|key|] == key && k[|key|] == n;
    if n in NameSet(fs, key) {
      var k' :| k' in fs.Keys && |k'| == |key| + 1 && k'[..|key|] == key && Plain(k'[|key|]) && k'[|key|] == n;
      assert k' == k;
    }
  }

  predicate NoDup(s: seq<string>) { forall i, j :: 0 <= i < j < |s| ==> s[i] != s[j] }

  /** Some listing of a finite set of names, each once. */
  ghost function Listing(s: set<string>): (r: seq<string>)
    ensures NoDup(r) && forall x :: x in r <==> x in s
    decreases |s|
  {
    if s == {} then [] else
      var x :| x in s;
      [x] + Listing(s - {x})
  }

  lemma {:induction false} NoDupCount(s: seq<string>, x: string)
    requires NoDup(s)
    ensures multiset(s)[x] == if x in s then 1 else 0
  {
    if s != [] {
      assert s == [s[0]] + s[1..];
      assert s[0] !in s[1..];
      NoDupCount(s[1..], x);
    }
  }

  /** Two listings of the same names, each name once, differ only in order. */
  lemma SameNamesSameMultiset(a: seq<string>, b: seq<string>)
    requires NoDup(a) && NoDup(b) && forall x :: x in a <==> x in b
    ensures multiset(a) == multiset(b)
  {
    forall x
      ensures multiset(a)[x] == multiset(b)[x]
    {
      NoDupCount(a, x);
      NoDupCount(b, x);
    }
  }

  /** A name that occurs at two positions is counted at least twice. */
  lemma RepeatCounted(s: seq<string>, i: nat, j: nat)
    requires i < j < |s| && s[i] == s[j]
    ensures multiset(s)[s[i]] >= 2
  {
    assert s == s[..j] + [s[j]] + s[j + 1..];
    assert s[i] in s[..j];
  }

  /** Reordering a listing without repeats gives one without repeats. */
  lemma ReorderedNoDup(a: seq<string>, b: seq<string>)
    requires NoDup(a) && multiset(b) == multiset(a)
    ensures NoDup(b)
  {
    forall i, j | 0 <= i < j < |b|
      ensures b[i] != b[j]
    {
      if b[i] == b[j] {
        RepeatCounted(b, i, j);
        NoDupCount(a, b[i]);
      }
    }
  }

  /** What `readDirNames` returns for a directory: its entry names, each once, sorted. */
  ghost function ChildNames(fs: FsMap, key: Key): (r: seq<string>)
    ensures Sorted(r) && NoDup(r) && forall x :: x in r <==> x in NameSet(fs, key)
  {
    var l := Listing(NameSet(fs, key));
    var r := SortStrings(l);
    assert forall x :: x in r <==> x in multiset(l);
    ReorderedNoDup(l, r);
    r
  }

  /** `readDirNames(dir)`: the names in the directory, then `sort.Strings`. */
  method ReadDirNames(fs: FsMap, key: Key) returns (names: seq<string>)
    ensures names == ChildNames(fs, key)
  {
    var all := NameSet(fs, key);
    var left := all;
    var listed: seq<string> := [];
    while left != {}
      invariant left <= all && NoDup(listed)
      invariant forall x :: x in listed <==> x in all && x !in left
      decreases |left|
    {
      var x :| x in left;
      listed := listed + [x];
      left := left - {x};
    }
    SameNamesSameMultiset(listed, Listing(all));
    SortIgnoresOrder(listed, Listing(all));
    names := SortStrings(listed);
  }

  // ---------------------------------------------------------------- the walk callback

  /** The header name (tar/tar.go:30-38): `Rel(root, file)` for an absolute root, the walk path otherwise. */
  function EntryName(root: Path, file: Path): Result<Path, Error>
  {
    if root.abs then
      match Rel(root, file)
      case Some(p) => Ok(p)
      case None => Failure(CantMakeRelative(root, file))
    else Ok(file)
  }

  /** `tar.FileInfoHeader` of what `lstat` reported, with the entry name and link target the callback sets. */
  function HeaderOf(name: Path, n: Node, link: Path): Header
  {
    match n
    case File(data, p) => Header(name, Regular, p, |data|, Dot)
    case Dir(p) => Header(name, Directory, p, 0, Dot)
    case Symlink(_) => Header(name, SymbolicLink, LinkPerm, 0, link)
  }

  /** The bytes an entry for node `n` should carry. */
  function Content(n: Node): seq<byte>
  {
    if n.File? then n.data else []
  }

  /** `os.Open(file)` and `io.Copy(tw, src)` (tar/tar.go:62-72): the open and the read may fail. */
  function CopyOut(c: Ctx, file: Path, data: seq<byte>, es: seq<Entry>): (r: (seq<Entry>, Option<Error>))
    requires es != []
    ensures |r.0| == |es| && r.0[..|es| - 1] == es[..|es| - 1]
    ensures r.0[|es| - 1].hdr == es[|es| - 1].hdr
    ensures Intact(es) ==> Intact(r.0)
  {
    var key := Resolve(c.cwd, file);
    match c.fails(OpenRead(key))
    case Some(f) => (es, Some(CantOpen(file, f.err)))
    case None =>
      var rf := c.fails(ReadBody(key));
      var got := if rf.Some? then data[..Min(rf.value.done, |data|)] else data;
      var w := WriteStep(es, got);
      var cerr := if w.err.Some? then w.err else if rf.Some? then Some(rf.value.err) else None;
      (w.entries, if cerr.Some? then Some(CantCopy(file, cerr.value)) else None)
  }

  /** The walk callback (tar/tar.go:19-74) on a node `lstat` found at walk path `file`. */
  function Visit(c: Ctx, file: Path, n: Node, es: seq<Entry>): (r: (seq<Entry>, Option<Error>))
    ensures Extends(es, r.0) && |r.0| <= |es| + 1
    ensures r.1.None? ==> |r.0| == |es| + 1
    ensures |r.0| > |es| ==> EntryName(c.root, file).Ok? && r.0[|es|].hdr.name == EntryName(c.root, file).value
    ensures Intact(es) ==> Intact(r.0)
    ensures Missing(es) > 0 ==> r.0 == es && r.1.Some?
    ensures n.Symlink? && EntryName(c.root, file).Ok? && ReadLink(c, EntryName(c.root, file).value).Failure? ==>
      r == (es, Some(ReadingLink(ReadLink(c, EntryName(c.root, file).value).error)))
  {
    match EntryName(c.root, file)
    case Failure(e) => (es, Some(e))
    case Ok(name) =>
      var link := if n.Symlink? then ReadLink(c, name) else Ok(Dot);
      if link.Failure? then (es, Some(ReadingLink(link.error)))
      else
        var (es1, he) := WriteHeaderStep(es, HeaderOf(name, n, link.value));
        if he.Some? then (es1, Some(WritingHeader(he.value)))
        else if !n.File? then (es1, None)
        else
          var r := CopyOut(c, file, n.data, es1);
          assert r.0[..|es|] == es;
          r
  }

  /**
   * What a successful visit writes: one entry named by `EntryName`, with the link target read for a
   * symbolic link, the whole file for a regular file, and no body otherwise.
   */
  lemma VisitContent(c: Ctx, file: Path, n: Node, es: seq<Entry>)
    requires Visit(c, file, n, es).1.None?
    ensures EntryName(c.root, file).Ok?
    ensures n.Symlink? ==> ReadLink(c, EntryName(c.root, file).value).Ok?
    ensures var name := EntryName(c.root, file).value;
      var link := if n.Symlink? then ReadLink(c, name).value else Dot;
      Visit(c, file, n, es).0 == es + [Entry(HeaderOf(name, n, link), Content(n))]
  {
    var name := EntryName(c.root, file).value;
    var link := if n.Symlink? then ReadLink(c, name).value else Dot;
    var h := HeaderOf(name, n, link);
    var es1 := es + [Entry(h, [])];
    assert WriteHeaderStep(es, h).0 == es1;
    if n.File? {
      assert Missing(es1) == |n.data|;
      var w := WriteStep(es1, n.data);
      assert n.data[..|n.data|] == n.data;
      assert w.entries[|es|].body == n.data;
      assert w.entries == es + [Entry(h, n.data)];
    }
  }

  method Walker(c: Ctx, file: Path, n: Node, tw: TarWriter) returns (err: Option<Error>)
    requires !tw.closed
    modifies tw
    ensures !tw.closed && tw.terminated == old(tw.terminated)
    ensures (tw.entries, err) == Visit(c, file, n, old(tw.entries))
  {
    var name := EntryName(c.root, file);
    if name.Failure? {
      return Some(name.error);
    }
    var link := Dot;
    if n.Symlink? {
      var l := ReadLink(c, name.value);
      if l.Failure? {
        return Some(ReadingLink(l.error));
      }
      link := l.value;
    }
    var he := tw.WriteHeader(HeaderOf(name.value, n, link));
    if he.Some? {
      return Some(WritingHeader(he.value));
    }
    if n.Dir? {
      return None;
    }
    if !n.File? {
      return None;
    }
    var key := Resolve(c.cwd, file);
    var open := c.fails(OpenRead(key));
    if open.Some? {
      return Some(CantOpen(file, open.value.err));
    }
    var rf := c.fails(ReadBody(key));
    var got := if rf.Some? then n.data[..Min(rf.value.done, |n.data|)] else n.data;
    var wrote, werr := tw.Write(got);
    if werr.Some? {
      return Some(CantCopy(file, werr.value));
    }
    if rf.Some? {
      return Some(CantCopy(file, rf.value.err));
    }
    return None;
  }

  // ---------------------------------------------------------------- filepath.Walk

  /** The keys strictly below `key`: what a walk from `key` can still reach. */
  ghost function Subtree(fs: FsMap, key: Key): set<Key>
  {
    set k | k in fs && |key| < |k| && k[..|key|] == key
  }

  lemma SubtreeShrinks(fs: FsMap, key: Key, n: string)
    requires key + [n] in fs
    ensures Subtree(fs, key + [n]) < Subtree(fs, key)
  {
    var child := key + [n];
    assert child[..|key|] == key;
    forall k | k in Subtree(fs, child)
      ensures k in Subtree(fs, key)
    {
      assert k[..|key|] == k[..|child|][..|key|];
    }
    assert child in Subtree(fs, key) && child !in Subtree(fs, child);
  }

  /** The walk path of a child is the directory's walk path and the name; it resolves one level down. */
  lemma ChildKey(cwd: Key, dir: Path, n: string)
    requires IsClean(dir) && Plain(n)
    ensures Join(dir, Path(false, [n])) == Path(dir.abs, dir.segs + [n])
    ensures Resolve(cwd, Join(dir, Path(false, [n]))) == Resolve(cwd, dir) + [n]
  {
    JoinPlain(dir, [n]);
    CleanOfClean(dir);
    CleanSnocPlain(dir, n);
    CleanSnocPlain(Path(true, cwd + dir.segs), n);
    assert cwd + (dir.segs + [n]) == (cwd + dir.segs) + [n];
  }

  /** Every name of a listing is a node below `dir`. */
  ghost predicate ChildrenOf(c: Ctx, dir: Path, names: seq<string>)
  {
    forall j :: 0 <= j < |names| ==> names[j] in NameSet(c.fs, Resolve(c.cwd, dir))
  }

  /** filepath's `walk(path, info)`: the callback on the node, then each child in name order. */
  ghost function WalkNode(c: Ctx, path: Path, n: Node, es: seq<Entry>): (r: (seq<Entry>, Option<Error>))
    requires IsClean(path)
    ensures Extends(es, r.0)
    ensures |r.0| > |es| ==> EntryName(c.root, path).Ok? && r.0[|es|].hdr.name == EntryName(c.root, path).value
    ensures Intact(es) ==> Intact(r.0)
    ensures Missing(es) > 0 ==> r.0 == es && r.1.Some?
    decreases Subtree(c.fs, Resolve(c.cwd, path)), 1, 0
  {
    var key := Resolve(c.cwd, path);
    if !n.Dir? then Visit(c, path, n, es)
    else if c.fails(ReadDir(key)).Some? then (es, Some(c.fails(ReadDir(key)).value.err))
    else
      var (es1, e1) := Visit(c, path, n, es);
      if e1.Some? then (es1, e1)
      else
        var r := WalkNames(c, path, ChildNames(c.fs, key), 0, es1);
        ExtendsTrans(es, es1, r.0);
        r
  }

  /** The loop of `walk` over the sorted names of a directory, from the `i`-th on. */
  ghost function WalkNames(c: Ctx, dir: Path, names: seq<string>, i: nat, es: seq<Entry>): (r: (seq<Entry>, Option<Error>))
    requires IsClean(dir) && i <= |names| && ChildrenOf(c, dir, names)
    ensures Extends(es, r.0)
    ensures Intact(es) ==> Intact(r.0)
    ensures Missing(es) > 0 ==> r.0 == es
    decreases Subtree(c.fs, Resolve(c.cwd, dir)), 0, |names| - i
  {
    if i == |names| then (es, None)
    else
      var p := Join(dir, Path(false, [names[i]]));
      var k := Resolve(c.cwd, p);
      NameSetMember(c.fs, Resolve(c.cwd, dir), names[i]);
      ChildKey(c.cwd, dir, names[i]);
      SubtreeShrinks(c.fs, Resolve(c.cwd, dir), names[i]);
      match LstatAt(c, k)
      case Failure(e) => (es, Some(e))
      case Ok(n) =>
        var (es1, e1) := WalkNode(c, p, n, es);
        if e1.Some? then (es1, e1)
        else
          var r := WalkNames(c, dir, names, i + 1, es1);
          ExtendsTrans(es, es1, r.0);
          r
  }

  /** `filepath.Walk(root, walker)`: `lstat` the root, then `walk` it. */
  ghost function WalkRoot(c: Ctx, es: seq<Entry>): (r: (seq<Entry>, Option<Error>))
    requires IsClean(c.root)
    ensures Extends(es, r.0)
    ensures Intact(es) ==> Intact(r.0)
    ensures Missing(es) > 0 ==> r.0 == es && r.1.Some?
  {
    match LstatAt(c, Resolve(c.cwd, c.root))
    case Failure(e) => (es, Some(e))
    case Ok(n) => WalkNode(c, c.root, n, es)
  }

  method WalkDir(c: Ctx, path: Path, n: Node, tw: TarWriter) returns (err: Option<Error>)
    requires IsClean(path) && !tw.closed
    modifies tw
    ensures !tw.closed && tw.terminated == old(tw.terminated)
    ensures (tw.entries, err) == WalkNode(c, path, n, old(tw.entries))
    decreases Subtree(c.fs, Resolve(c.cwd, path)), 1
  {
    if !n.Dir? {
      err := Walker(c, path, n, tw);
      return;
    }
    var key := Resolve(c.cwd, path);
    var rd := c.fails(ReadDir(key));
    if rd.Some? {
      return Some(rd.value.err);
    }
    var names := ReadDirNames(c.fs, key);
    err := Walker(c, path, n, tw);
    if err.Some? {
      return;
    }
    err := WalkChildren(c, path, names, tw);
  }

  /** The loop of `walk` over a directory's sorted names: `lstat` each child and walk it. */
  method WalkChildren(c: Ctx, dir: Path, names: seq<string>, tw: TarWriter) returns (err: Option<Error>)
    requires IsClean(dir) && ChildrenOf(c, dir, names) && !tw.closed
    modifies tw
    ensures !tw.closed && tw.terminated == old(tw.terminated)
    ensures (tw.entries, err) == WalkNames(c, dir, names, 0, old(tw.entries))
    decreases Subtree(c.fs, Resolve(c.cwd, dir)), 0
  {
    var key := Resolve(c.cwd, dir);
    var i := 0;
    while i < |names|
      invariant 0 <= i <= |names| && !tw.closed && tw.terminated == old(tw.terminated)
      invariant WalkNames(c, dir, names, i, tw.entries) == WalkNames(c, dir, names, 0, old(tw.entries))
    {
      var p := Join(dir, Path(false, [names[i]]));
      NameSetMember(c.fs, key, names[i]);
      ChildKey(c.cwd, dir, names[i]);
      SubtreeShrinks(c.fs, key, names[i]);
      var st := LstatAt(c, Resolve(c.cwd, p));
      if st.Failure? {
        return Some(st.error);
      }
      err := WalkDir(c, p, st.value, tw);
      if err.Some? {
        return;
      }
      i := i + 1;
    }
    return None;
  }

  method Walk(c: Ctx, tw: TarWriter) returns (err: Option<Error>)
    requires IsClean(c.root) && !tw.closed
    modifies tw
    ensures !tw.closed && tw.terminated == old(tw.terminated)
    ensures (tw.entries, err) == WalkRoot(c, old(tw.entries))
  {
    var st := LstatAt(c, Resolve(c.cwd, c.root));
    if st.Failure? {
      return Some(st.error);
    }
    err := WalkDir(c, c.root, st.value, tw);
  }

  // ---------------------------------------------------------------- entry names

  /** A walk path below the clean root `root`: the root's elements, then plain names. */
  predicate Descends(root: Path, p: Path)
  {
    p.abs == root.abs && |root.segs| <= |p.segs| && p.segs[..|root.segs|] == root.segs
    && AllPlain(p.segs[|root.segs|..])
  }

  /** The names a walk from `root` gives: relative and plain below an absolute root, the walk path below a relative one. */
  predicate NamedFor(root: Path, name: Path)
  {
    if root.abs then !name.abs && AllPlain(name.segs) else Descends(root, name)
  }

  lemma DescendsChild(root: Path, dir: Path, n: string)
    requires Descends(root, dir) && Plain(n)
    ensures Descends(root, Path(dir.abs, dir.segs + [n]))
  {
    var s := dir.segs + [n];
    assert s[..|root.segs|] == dir.segs[..|root.segs|];
    assert s[|root.segs|..] == dir.segs[|root.segs|..] + [n];
  }

  /** For an absolute root the name is the walk path less the root; for a relative one, the walk path. */
  lemma EntryNameBelow(root: Path, p: Path)
    requires IsClean(root) && Descends(root, p)
    ensures EntryName(root, p) == Ok(if root.abs then Path(false, p.segs[|root.segs|..]) else p)
    ensures NamedFor(root, EntryName(root, p).value)
  {
    var rest := p.segs[|root.segs|..];
    assert root.segs + rest == p.segs;
    RelOfDescendant(root, rest);
  }

  /** The root itself is named "." when it is absolute. */
  lemma RootNamedDot(c: Ctx, es: seq<Entry>)
    requires IsClean(c.root) && c.root.abs
    requires |WalkRoot(c, es).0| > |es|
    ensures WalkRoot(c, es).0[|es|].hdr.name == Dot
  {
    assert c.root.segs + [] == c.root.segs;
    RelOfDescendant(c.root, []);
  }

  /** Every entry `r` has beyond `es` is named as `NamedFor` says. */
  ghost predicate NewNamed(root: Path, es: seq<Entry>, r: seq<Entry>)
  {
    forall j :: |es| <= j < |r| ==> NamedFor(root, r[j].hdr.name)
  }

  lemma NewNamedTrans(root: Path, a: seq<Entry>, b: seq<Entry>, c: seq<Entry>)
    requires Extends(a, b) && Extends(b, c) && NewNamed(root, a, b) && NewNamed(root, b, c)
    ensures NewNamed(root, a, c)
  {
    forall j | |a| <= j < |c|
      ensures NamedFor(root, c[j].hdr.name)
    {
      if j < |b| {
        assert c[j] == c[..|b|][j];
      }
    }
  }

  lemma VisitNamed(c: Ctx, file: Path, n: Node, es: seq<Entry>)
    requires IsClean(c.root) && Descends(c.root, file)
    ensures NewNamed(c.root, es, Visit(c, file, n, es).0)
  {
    EntryNameBelow(c.root, file);
  }

  lemma {:induction false} WalkNodeNamed(c: Ctx, path: Path, n: Node, es: seq<Entry>)
    requires IsClean(c.root) && IsClean(path) && Descends(c.root, path)
    ensures NewNamed(c.root, es, WalkNode(c, path, n, es).0)
    decreases Subtree(c.fs, Resolve(c.cwd, path)), 1, 0
  {
    VisitNamed(c, path, n, es);
    var key := Resolve(c.cwd, path);
    if n.Dir? && c.fails(ReadDir(key)).None? {
      var v := Visit(c, path, n, es);
      if v.1.None? {
        var names := ChildNames(c.fs, key);
        var w := WalkNames(c, path, names, 0, v.0);
        assert WalkNode(c, path, n, es) == w;
        WalkNamesNamed(c, path, names, 0, v.0);
        NewNamedTrans(c.root, es, v.0, w.0);
      }
    }
  }

  lemma {:induction false} WalkNamesNamed(c: Ctx, dir: Path, names: seq<string>, i: nat, es: seq<Entry>)
    requires IsClean(c.root) && IsClean(dir) && Descends(c.root, dir)
    requires i <= |names| && ChildrenOf(c, dir, names)
    ensures NewNamed(c.root, es, WalkNames(c, dir, names, i, es).0)
    decreases Subtree(c.fs, Resolve(c.cwd, dir)), 0, |names| - i
  {
    if i < |names| {
      var p := Join(dir, Path(false, [names[i]]));
      NameSetMember(c.fs, Resolve(c.cwd, dir), names[i]);
      ChildKey(c.cwd, dir, names[i]);
      SubtreeShrinks(c.fs, Resolve(c.cwd, dir), names[i]);
      DescendsChild(c.root, dir, names[i]);
      var st := LstatAt(c, Resolve(c.cwd, p));
      if st.Ok? {
        var v := WalkNode(c, p, st.value, es);
        WalkNodeNamed(c, p, st.value, es);
        if v.1.None? {
          var w := WalkNames(c, dir, names, i + 1, v.0);
          assert WalkNames(c, dir, names, i, es) == w;
          WalkNamesNamed(c, dir, names, i + 1, v.0);
          NewNamedTrans(c.root, es, v.0, w.0);
        }
      }
    }
  }

  /** Every entry one root's walk writes is named as `NamedFor` says. */
  lemma WalkRootNamed(c: Ctx, es: seq<Entry>)
    requires IsClean(c.root)
    ensures NewNamed(c.root, es, WalkRoot(c, es).0)
  {
    assert c.root.segs[..|c.root.segs|] == c.root.segs && c.root.segs[|c.root.segs|..] == [];
    var st := LstatAt(c, Resolve(c.cwd, c.root));
    if st.Ok? {
      assert WalkRoot(c, es) == WalkNode(c, c.root, st.value, es);
      WalkNodeNamed(c, c.root, st.value, es);
    }
  }

  /**
   * `os.Readlink` is given the entry name (tar/tar.go:41): below a relative root that is where
   * the walk found the link, but below an absolute root it is the same names under the working
   * directory instead.
   */
  lemma LinkReadAt(c: Ctx, p: Path)
    requires IsClean(c.root) && Descends(c.root, p) && AllPlain(c.cwd)
    ensures !c.root.abs ==> Resolve(c.cwd, EntryName(c.root, p).value) == Resolve(c.cwd, p)
    ensures c.root.abs ==> Resolve(c.cwd, p) == p.segs
    ensures c.root.abs ==> Resolve(c.cwd, EntryName(c.root, p).value) == c.cwd + p.segs[|c.root.segs|..]
  {
    EntryNameBelow(c.root, p);
    var rest := p.segs[|c.root.segs|..];
    if c.root.abs {
      assert c.root.segs + rest == p.segs;
      assert IsClean(p);
      CleanOfClean(p);
      var s := c.cwd + rest;
      assert forall i :: 0 <= i < |s| ==> Plain(s[i]);
      CleanFromOfClean(true, [], s);
    }
  }

  /** The example below: "/r" holds a link "l", and the walk runs from "/" on the absolute root "/r". */
  function QuirkCtx(): Ctx
  {
    Ctx(map[["r"] := Dir(DirPerm), ["r", "l"] := Symlink(Path(false, ["t"]))], [], Path(true, ["r"]), _ => None)
  }

  /** In the example, the link "/r/l" is archived under the name "l". */
  lemma QuirkEntryName()
    ensures EntryName(QuirkCtx().root, Path(true, ["r", "l"])) == Ok(Path(false, ["l"]))
  {
    var file := Path(true, ["r", "l"]);
    assert file.segs[..1] == ["r"] && file.segs[1..] == ["l"];
    EntryNameBelow(QuirkCtx().root, file);
  }

  /** In the example, `os.Readlink("l")` looks in the working directory "/", where there is no "l". */
  lemma QuirkReadLink()
    ensures ReadLink(QuirkCtx(), Path(false, ["l"])) == Failure(PathError("readlink", ["l"], ENOENT))
  {
    var c := QuirkCtx();
    assert Resolve(c.cwd, Path(false, ["l"])) == ["l"] by {
      assert [] + ["l"] == ["l"];
      CleanFromOfClean(true, [], ["l"]);
    }
    assert ["l"] !in c.fs;
  }

  /** An absolute root other than the working directory loses its links: "/r/l" is read as "l", which is not there. */
  lemma LinkQuirkExample()
    ensures Visit(QuirkCtx(), Path(true, ["r", "l"]), Symlink(Path(false, ["t"])), [])
      == ([], Some(ReadingLink(PathError("readlink", ["l"], ENOENT))))
  {
    QuirkEntryName();
    QuirkReadLink();
  }

  // ---------------------------------------------------------------- TarFiles

  /** The loop over the roots from the `i`-th on: each is cleaned and walked; its error is dropped. */
  ghost function TarLoop(fs: FsMap, cwd: Key, fails: Faults, roots: seq<Path>, i: nat, es: seq<Entry>): (r: seq<Entry>)
    requires i <= |roots|
    ensures Extends(es, r)
    ensures Intact(es) ==> Intact(r)
    ensures Missing(es) > 0 ==> r == es
    decreases |roots| - i
  {
    if i == |roots| then es
    else
      var es1 := WalkRoot(Ctx(fs, cwd, Clean(roots[i]), fails), es).0;
      var r := TarLoop(fs, cwd, fails, roots, i + 1, es1);
      ExtendsTrans(es, es1, r);
      r
  }

  /** `TarFiles(paths, w)`: the entries of every root in turn, then `Close`, whose error is the result. */
  ghost function TarSpec(roots: seq<Path>, fs: FsMap, cwd: Key, fails: Faults): (r: (Packed, Option<Error>))
    ensures r.1.None? <==> r.0.terminated
    ensures r.1.None? ==> forall j :: 0 <= j < |r.0.entries| ==> Full(r.0.entries[j])
    ensures r.1.Some? ==> r.1.value == MissedWriting(Missing(r.0.entries))
  {
    var es := TarLoop(fs, cwd, fails, roots, 0, []);
    var (t, e) := CloseStep(es);
    if e.None? then
      ClosedArchiveComplete(es);
      (Packed(es, t), e)
    else (Packed(es, t), e)
  }

  /** The rest of the loop depends only on the roots still to come. */
  lemma {:induction false} TarLoopSuffix(fs: FsMap, cwd: Key, fails: Faults, a: seq<Path>, i: nat, b: seq<Path>, j: nat, es: seq<Entry>)
    requires i <= |a| && j <= |b| && a[i..] == b[j..]
    ensures TarLoop(fs, cwd, fails, a, i, es) == TarLoop(fs, cwd, fails, b, j, es)
    decreases |a| - i
  {
    if i < |a| {
      assert a[i] == a[i..][0] == b[j..][0] == b[j];
      assert a[i + 1..] == a[i..][1..] == b[j..][1..] == b[j + 1..];
      var es1 := WalkRoot(Ctx(fs, cwd, Clean(a[i]), fails), es).0;
      TarLoopSuffix(fs, cwd, fails, a, i + 1, b, j + 1, es1);
    } else {
      assert |b[j..]| == 0;
    }
  }

  /** From any root before a missing one, the loop gives the same as without the missing root. */
  /** One turn of the loop: the `i`-th root is cleaned and walked, then the loop goes on. */
  lemma TarLoopUnfold(fs: FsMap, cwd: Key, fails: Faults, roots: seq<Path>, i: nat, es: seq<Entry>)
    requires i < |roots|
    ensures TarLoop(fs, cwd, fails, roots, i, es)
      == TarLoop(fs, cwd, fails, roots, i + 1, WalkRoot(Ctx(fs, cwd, Clean(roots[i]), fails), es).0)
  {
  }

  /** Where the unreadable root stood, the loop goes straight on to the roots after it. */
  lemma SkipMissingHere(fs: FsMap, cwd: Key, fails: Faults, roots: seq<Path>, i: nat, es: seq<Entry>)
    requires i < |roots|
    requires LstatAt(Ctx(fs, cwd, Clean(roots[i]), fails), Resolve(cwd, Clean(roots[i]))).Failure?
    ensures TarLoop(fs, cwd, fails, roots, i, es) == TarLoop(fs, cwd, fails, roots[..i] + roots[i + 1..], i, es)
  {
    var b := roots[..i] + roots[i + 1..];
    assert WalkRoot(Ctx(fs, cwd, Clean(roots[i]), fails), es).0 == es;
    assert b[i..] == roots[i + 1..];
    TarLoopSuffix(fs, cwd, fails, roots, i + 1, b, i, es);
  }

  lemma {:induction false} SkipMissingFrom(fs: FsMap, cwd: Key, fails: Faults, roots: seq<Path>, i: nat, j: nat, es: seq<Entry>)
    requires j <= i < |roots|
    requires LstatAt(Ctx(fs, cwd, Clean(roots[i]), fails), Resolve(cwd, Clean(roots[i]))).Failure?
    ensures TarLoop(fs, cwd, fails, roots, j, es) == TarLoop(fs, cwd, fails, roots[..i] + roots[i + 1..], j, es)
    decreases i - j
  {
    if j == i {
      SkipMissingHere(fs, cwd, fails, roots, i, es);
    } else {
      var b := roots[..i] + roots[i + 1..];
      var es1 := WalkRoot(Ctx(fs, cwd, Clean(roots[j]), fails), es).0;
      calc {
        TarLoop(fs, cwd, fails, roots, j, es);
        == { TarLoopUnfold(fs, cwd, fails, roots, j, es); }
        TarLoop(fs, cwd, fails, roots, j + 1, es1);
        == { SkipMissingFrom(fs, cwd, fails, roots, i, j + 1, es1); }
        TarLoop(fs, cwd, fails, b, j + 1, es1);
        == { assert b[j] == roots[j]; TarLoopUnfold(fs, cwd, fails, b, j, es); }
        TarLoop(fs, cwd, fails, b, j, es);
      }
    }
  }

  /** A root that cannot be `lstat`ed is reported and skipped: the output is as if it were not listed. */
  lemma MissingRootSkipped(roots: seq<Path>, fs: FsMap, cwd: Key, fails: Faults, i: nat)
    requires i < |roots|
    requires LstatAt(Ctx(fs, cwd, Clean(roots[i]), fails), Resolve(cwd, Clean(roots[i]))).Failure?
    ensures TarSpec(roots, fs, cwd, fails) == TarSpec(roots[..i] + roots[i + 1..], fs, cwd, fails)
  {
    SkipMissingFrom(fs, cwd, fails, roots, i, 0, []);
  }

  lemma {:induction false} TarLoopSameCleaned(fs: FsMap, cwd: Key, fails: Faults, a: seq<Path>, b: seq<Path>, i: nat, es: seq<Entry>)
    requires i <= |a| == |b| && forall j :: 0 <= j < |a| ==> Clean(a[j]) == Clean(b[j])
    ensures TarLoop(fs, cwd, fails, a, i, es) == TarLoop(fs, cwd, fails, b, i, es)
    decreases |a| - i
  {
    if i < |a| {
      var es1 := WalkRoot(Ctx(fs, cwd, Clean(a[i]), fails), es).0;
      TarLoopSameCleaned(fs, cwd, fails, a, b, i + 1, es1);
    }
  }

  /** Every root is cleaned before use (tar/tar.go:17): cleaning the list first changes nothing. */
  lemma RootsCleanedFirst(roots: seq<Path>, fs: FsMap, cwd: Key, fails: Faults)
    ensures TarSpec(roots, fs, cwd, fails) == TarSpec(seq(|roots|, j requires 0 <= j < |roots| => Clean(roots[j])), fs, cwd, fails)
  {
    var cleaned := seq(|roots|, j requires 0 <= j < |roots| => Clean(roots[j]));
    forall j | 0 <= j < |roots|
      ensures Clean(roots[j]) == Clean(cleaned[j])
    {
      CleanIdempotent(roots[j]);
    }
    TarLoopSameCleaned(fs, cwd, fails, roots, cleaned, 0, []);
  }

  method TarFiles(paths: seq<Path>, fsys: FileSystem, fails: Faults) returns (out: Packed, err: Option<Error>)
    ensures (out, err) == TarSpec(paths, fsys.nodes, fsys.cwd, fails)
  {
    var tw := new TarWriter();
    var i := 0;
    while i < |paths|
      invariant 0 <= i <= |paths| && !tw.closed && !tw.terminated
      invariant TarLoop(fsys.nodes, fsys.cwd, fails, paths, i, tw.entries) == TarLoop(fsys.nodes, fsys.cwd, fails, paths, 0, [])
    {
      var c := Ctx(fsys.nodes, fsys.cwd, Clean(paths[i]), fails);
      var walkErr := Walk(c, tw);
      i := i + 1;
    }
    err := tw.Close();
    out := Packed(tw.entries, tw.terminated);
  }
}
