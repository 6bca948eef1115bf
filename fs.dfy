/**
 * The host file system as the core sees it: a map from clean absolute paths (as segment
 * sequences) to nodes, looked up lexically, plus the working directory and umask of the
 * process, and the effect of the three calls extraction makes (`os.Symlink`, `os.MkdirAll`,
 * `os.OpenFile` with O_RDWR|O_CREATE|O_TRUNC).
 */
module Fs {
  import opened Common
  import opened Paths
  import opened Errors

  /** A clean absolute path, element by element; `[]` is "/". */
  type Key = seq<string>

  /** The nine permission bits of a mode. */
  type Perm = bv9

  const DirPerm: Perm := 0x1ED   // 0755
  const LinkPerm: Perm := 0x1FF  // 0777, what lstat reports for a symlink

  datatype Node = File(data: seq<byte>, perm: Perm) | Dir(perm: Perm) | Symlink(target: Path)

  type FsMap = map<Key, Node>

  /** `lstat` without following links; the root directory always exists. */
  function Lookup(fs: FsMap, k: Key): Option<Node>
  {
    if k in fs then Some(fs[k]) else if k == [] then Some(Dir(DirPerm)) else None
  }

  predicate IsDirAt(fs: FsMap, k: Key) { Lookup(fs, k).Some? && Lookup(fs, k).value.Dir? }

  /** Something other than a directory is there. */
  predicate NonDirAt(fs: FsMap, k: Key) { Lookup(fs, k).Some? && !Lookup(fs, k).value.Dir? }

  function Parent(k: Key): Key
    requires k != []
  {
    k[..|k| - 1]
  }

  /** The key the kernel resolves `p` to from working directory `cwd` (lexically). */
  function Resolve(cwd: Key, p: Path): Key
  {
    if p.abs then Clean(p).segs else Clean(Path(true, cwd + p.segs)).segs
  }

  /** The mode a newly created node gets: the requested bits less the process umask. */
  function Masked(perm: Perm, umask: Perm): Perm { perm & !umask }

  /** Why a node cannot be created at `dest` whose parent is not a directory. */
  function NoParent(op: string, fs: FsMap, dest: Key): Error
    requires dest != []
  {
    PathError(op, dest, if Lookup(fs, Parent(dest)).None? then ENOENT else ENOTDIR)
  }

  /** A call into the operating system that may fail for reasons the model does not derive. */
  datatype Call =
    | Getwd
    | Lstat(key: Key)
    | ReadDir(key: Key)
    | Readlink(key: Key)
    | OpenRead(key: Key)
    | ReadBody(key: Key)
    | MakeSymlink(entry: nat)
    | MakeDirs(entry: nat)
    | OpenWrite(entry: nat)
    | WriteBody(entry: nat)
    | CloseFile(entry: nat)

  /** An injected failure; `done` is how many bytes a read or write moved before failing. */
  datatype Fault = Fault(err: Error, done: nat)

  /** Which calls fail: pack-side calls are told apart by path, extraction calls by entry index. */
  type Faults = Call -> Option<Fault>

  /** The process's view of the file system: it is changed in place by extraction. */
  class FileSystem {
    var nodes: FsMap
    var cwd: Key
    var umask: Perm

    constructor (nodes: FsMap, cwd: Key, umask: Perm)
      ensures this.nodes == nodes && this.cwd == cwd && this.umask == umask
    {
      this.nodes := nodes;
      this.cwd := cwd;
      this.umask := umask;
    }

    /** `os.Symlink(target, dest)`. */
    method NewSymlink(target: Path, dest: Key) returns (err: Option<Error>)
      modifies this
      ensures cwd == old(cwd) && umask == old(umask)
      ensures nodes == Updated(old(nodes), SymlinkAt(old(nodes), target, dest))
      ensures err == ErrorOf(SymlinkAt(old(nodes), target, dest))
    {
      var r := SymlinkAt(nodes, target, dest);
      nodes, err := Updated(nodes, r), ErrorOf(r);
    }

    /** `os.MkdirAll(dest, perm)`: the directories made get `perm` less the umask. */
    method Mkdirs(dest: Key, perm: Perm) returns (err: Option<Error>)
      modifies this
      ensures cwd == old(cwd) && umask == old(umask)
      ensures nodes == Updated(old(nodes), MkdirAll(old(nodes), dest, Masked(perm, umask)))
      ensures err == ErrorOf(MkdirAll(old(nodes), dest, Masked(perm, umask)))
    {
      var r := MkdirAll(nodes, dest, Masked(perm, umask));
      nodes, err := Updated(nodes, r), ErrorOf(r);
    }

    /** `os.OpenFile(dest, O_RDWR|O_CREATE|O_TRUNC, perm)`. */
    method Open(dest: Key, perm: Perm) returns (err: Option<Error>)
      modifies this
      ensures cwd == old(cwd) && umask == old(umask)
      ensures nodes == Updated(old(nodes), OpenTrunc(old(nodes), dest, perm, umask))
      ensures err == ErrorOf(OpenTrunc(old(nodes), dest, perm, umask))
    {
      var r := OpenTrunc(nodes, dest, perm, umask);
      nodes, err := Updated(nodes, r), ErrorOf(r);
    }

    /** `f.Write(data)` on the file opened at `dest`: the bytes go after those already there. */
    method Write(dest: Key, data: seq<byte>)
      requires dest in nodes && nodes[dest].File?
      modifies this
      ensures cwd == old(cwd) && umask == old(umask)
      ensures nodes == old(nodes)[dest := File(old(nodes)[dest].data + data, old(nodes)[dest].perm)]
    {
      nodes := nodes[dest := File(nodes[dest].data + data, nodes[dest].perm)];
    }
  }

  /** The state after a call that either succeeds with a new state or fails leaving it alone. */
  function Updated(fs: FsMap, r: Result<FsMap, Error>): FsMap
  {
    if r.Ok? then r.value else fs
  }

  function ErrorOf<T>(r: Result<T, Error>): Option<Error>
  {
    if r.Ok? then None else Some(r.error)
  }

  /** `os.Symlink(target, dest)`: fails if anything is at `dest` or its parent is not a directory. */
  function SymlinkAt(fs: FsMap, target: Path, dest: Key): (r: Result<FsMap, Error>)
    ensures r.Ok? <==> Lookup(fs, dest).None? && IsDirAt(fs, Parent(dest))
    ensures r.Ok? ==> r.value == fs[dest := Symlink(target)]
  {
    if Lookup(fs, dest).Some? then Failure(PathError("symlink", dest, EEXIST))
    else if !IsDirAt(fs, Parent(dest)) then Failure(NoParent("symlink", fs, dest))
    else Ok(fs[dest := Symlink(target)])
  }

  /** The shape every real file system has: "/" is a directory, and so is the parent of every node. */
  ghost predicate Tree(fs: FsMap)
  {
    IsDirAt(fs, []) && forall k :: k in fs && k != [] ==> IsDirAt(fs, Parent(k))
  }

  /**
   * `os.MkdirAll(dest, mode)`: succeeds at once on an existing directory, fails on an existing
   * non-directory, and otherwise makes the parent first and then `dest`.
   */
  function MkdirAll(fs: FsMap, dest: Key, mode: Perm): (r: Result<FsMap, Error>)
    ensures r.Ok? ==> IsDirAt(r.value, dest)
    ensures r.Ok? ==> Grows(fs, r.value, dest, mode)
    decreases |dest|
  {
    match Lookup(fs, dest)
    case Some(n) =>
      if n.Dir? then Ok(fs) else Failure(PathError("mkdir", dest, ENOTDIR))
    case None =>
      match MkdirAll(fs, Parent(dest), mode)
      case Failure(e) => Failure(e)
      case Ok(fs1) =>
        GrowsStep(fs, fs1, dest, mode);
        Ok(fs1[dest := Dir(mode)])
  }

  /** `fs'` is `fs` plus directories of mode `mode` at ancestors-or-self of `dest`. */
  ghost predicate Grows(fs: FsMap, fs': FsMap, dest: Key, mode: Perm)
  {
    && (forall k :: k in fs ==> k in fs' && fs'[k] == fs[k])
    && (forall k :: k in fs' && k !in fs ==> fs'[k] == Dir(mode) && |k| <= |dest| && k == dest[..|k|])
  }

  lemma GrowsStep(fs: FsMap, fs1: FsMap, dest: Key, mode: Perm)
    requires dest != [] && dest !in fs
    requires Grows(fs, fs1, Parent(dest), mode)
    ensures dest !in fs1
    ensures Grows(fs, fs1[dest := Dir(mode)], dest, mode)
  {
    var up := Parent(dest);
    forall k | k in fs1 && k !in fs
      ensures k == dest[..|k|] && |k| < |dest|
    {
      assert k == up[..|k|];
    }
  }

  /** Extraction's directory creation keeps the tree shape. */
  lemma {:induction false} MkdirAllKeepsTree(fs: FsMap, dest: Key, mode: Perm)
    requires Tree(fs)
    requires MkdirAll(fs, dest, mode).Ok?
    ensures Tree(MkdirAll(fs, dest, mode).value)
    decreases |dest|
  {
    if Lookup(fs, dest).None? {
      var fs1 := MkdirAll(fs, Parent(dest), mode).value;
      MkdirAllKeepsTree(fs, Parent(dest), mode);
      assert dest !in fs1 by { GrowsStep(fs, fs1, dest, mode); }
      CreateKeepsTree(fs1, dest, Dir(mode));
    }
  }

  /** `MkdirAll` fails only where something other than a directory sits on the way to `dest`. */
  lemma {:induction false} MkdirAllFails(fs: FsMap, dest: Key, mode: Perm)
    requires MkdirAll(fs, dest, mode).Failure?
    ensures exists j :: 0 <= j <= |dest| && NonDirAt(fs, dest[..j])
    decreases |dest|
  {
    if Lookup(fs, dest).Some? {
      assert dest[..|dest|] == dest;
    } else {
      var up := Parent(dest);
      MkdirAllFails(fs, up, mode);
      var j :| 0 <= j <= |up| && NonDirAt(fs, up[..j]);
      assert up[..j] == dest[..j];
    }
  }

  /** Conversely, `MkdirAll` succeeds when nothing but directories or gaps lie on the way to `dest`. */
  lemma {:induction false} MkdirAllSucceeds(fs: FsMap, dest: Key, mode: Perm)
    requires forall j :: 0 <= j <= |dest| ==> !NonDirAt(fs, dest[..j])
    ensures MkdirAll(fs, dest, mode).Ok?
    decreases |dest|
  {
    assert dest[..|dest|] == dest;
    if Lookup(fs, dest).None? {
      var up := Parent(dest);
      forall j | 0 <= j <= |up|
        ensures !NonDirAt(fs, up[..j])
      {
        assert up[..j] == dest[..j];
      }
      MkdirAllSucceeds(fs, up, mode);
    }
  }

  /** `os.OpenFile(dest, O_RDWR|O_CREATE|O_TRUNC, perm)`: truncates a file, or creates one under a directory. */
  function OpenTrunc(fs: FsMap, dest: Key, perm: Perm, umask: Perm): (r: Result<FsMap, Error>)
    ensures r.Ok? <==> (Lookup(fs, dest).None? && IsDirAt(fs, Parent(dest))) || (Lookup(fs, dest).Some? && Lookup(fs, dest).value.File?)
    ensures r.Ok? ==> r.value == fs[dest := File([], TruncPerm(fs, dest, perm, umask))]
  {
    match Lookup(fs, dest)
    case Some(Dir(_)) => Failure(PathError("open", dest, EISDIR))
    case Some(Symlink(_)) => Failure(PathError("open", dest, ELOOP))
    case Some(File(_, p)) => Ok(fs[dest := File([], p)])
    case None =>
      if !IsDirAt(fs, Parent(dest)) then Failure(NoParent("open", fs, dest))
      else Ok(fs[dest := File([], Masked(perm, umask))])
  }

  /** Truncation keeps an existing file's mode; creation uses the requested bits less the umask. */
  function TruncPerm(fs: FsMap, dest: Key, perm: Perm, umask: Perm): Perm
  {
    if dest in fs && fs[dest].File? then fs[dest].perm else Masked(perm, umask)
  }

  /** Creating a node under an existing directory keeps the tree shape. */
  lemma CreateKeepsTree(fs: FsMap, dest: Key, n: Node)
    requires Tree(fs) && dest != [] && IsDirAt(fs, Parent(dest))
    requires Lookup(fs, dest).None? || (!n.Dir? && !fs[dest].Dir?) || (n.Dir? && fs[dest].Dir?)
    ensures Tree(fs[dest := n])
  {
    var fs' := fs[dest := n];
    forall k | k in fs' && k != []
      ensures IsDirAt(fs', Parent(k))
    {
      if k == dest {
        assert Parent(k) != dest;
      } else {
        assert IsDirAt(fs, Parent(k));
        if Parent(k) == dest {
          assert dest in fs;
        }
      }
    }
  }
}
