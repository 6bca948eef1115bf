/**
 * `Untar` (tar/tar.go:88-151): read entries until the end of the archive; place each one under
 * the working directory (an absolute name is first made relative to "/"); make symbolic links
 * (a failure is only a warning), directories with their ancestors, and regular files with the
 * entry's permission bits and body.
 */
module Unpack {
  import opened Common
  import opened Paths
  import opened Errors
  import opened Fs
  import opened TarFormat
  import Pack

  /** Where entry `name` goes (tar/tar.go:108-115): `Join(Abs("."), name)`, an absolute name first taken relative to "/". */
  function Dest(cwd: Key, name: Path): Result<Key, Error>
  {
    var rel := if name.abs then Rel(Root, name) else Some(name);
    match rel
    case None => Failure(CantMakeRelative(Root, name))
    case Some(f) => Ok(Join(Path(true, cwd), f).segs)
  }

  /** What one pass of the loop leaves: go on with the next entry, or stop with the result `Untar` returns. */
  datatype Outcome = Next(fs: FsMap) | Stop(fs: FsMap, err: Option<Error>)

  /** The bytes `io.Copy(file, tr)` gets into the file: the whole body, or what went before a failing write. */
  function Written(fails: Faults, i: nat, e: Entry): (r: seq<byte>)
    ensures |r| <= |Delivered(e)| && r == Delivered(e)[..|r|]
  {
    var data := Delivered(e);
    match fails(WriteBody(i))
    case Some(f) => if f.done < |data| then data[..f.done] else data
    case None => data
  }

  /** The error `io.Copy(file, tr)` returns: a failing write first, else a body cut short. */
  function CopyErr(fails: Faults, i: nat, e: Entry): (r: Option<Error>)
    ensures r.None? <==> |Written(fails, i, e)| == Owed(e.hdr)
  {
    match fails(WriteBody(i))
    case Some(f) => if f.done < |Delivered(e)| then Some(f.err) else BodyErr(e)
    case None => BodyErr(e)
  }

  /** The regular-file branch (tar/tar.go:132-147) for entry `i` going to `dest`. */
  function WriteFile(fs: FsMap, umask: Perm, fails: Faults, i: nat, dest: Key, e: Entry): Outcome
  {
    if fails(OpenWrite(i)).Some? then Stop(fs, Some(fails(OpenWrite(i)).value.err))
    else match OpenTrunc(fs, dest, e.hdr.perm, umask)
      case Failure(err) => Stop(fs, Some(err))
      case Ok(fs1) =>
        var data := Written(fails, i, e);
        var fs2 := fs1[dest := File(data, TruncPerm(fs, dest, e.hdr.perm, umask))];
        // a failing Close returns the OpenFile error, which is nil here
        if fails(CloseFile(i)).Some? then Stop(fs2, None)
        else if CopyErr(fails, i, e).Some? then Stop(fs2, CopyErr(fails, i, e))
        else if |data| != e.hdr.size then Stop(fs2, Some(UnexpectedBytesWritten(|data|, e.hdr.size)))
        else Next(fs2)
  }

  /** One pass of the loop body (tar/tar.go:106-147) for the `i`-th entry `e`. */
  function Step(fs: FsMap, cwd: Key, umask: Perm, fails: Faults, i: nat, e: Entry): Outcome
  {
    match Dest(cwd, e.hdr.name)
    case Failure(err) => Stop(fs, Some(err))
    case Ok(dest) =>
      if e.hdr.kind == SymbolicLink then
        if fails(MakeSymlink(i)).Some? then Next(fs)
        else Next(Updated(fs, SymlinkAt(fs, Join(Dot, e.hdr.linkname), dest)))
      else if e.hdr.kind == Directory then
        if fails(MakeDirs(i)).Some? then Stop(fs, Some(fails(MakeDirs(i)).value.err))
        else match MkdirAll(fs, dest, Masked(DirPerm, umask))
          case Ok(fs1) => Next(fs1)
          case Failure(err) => Stop(fs, Some(err))
      else WriteFile(fs, umask, fails, i, dest, e)
  }

  /** The loop from the `i`-th call of `Next` on: the final file system and the result. */
  function UntarFrom(a: Archive, cwd: Key, umask: Perm, fails: Faults, i: nat, fs: FsMap): (FsMap, Option<Error>)
    decreases |a.entries| - i
  {
    match NextAt(a, i)
    case Failure(err) => (fs, Some(err))
    case Ok(None) => (fs, None)
    case Ok(Some(e)) =>
      match Step(fs, cwd, umask, fails, i, e)
      case Next(fs1) => UntarFrom(a, cwd, umask, fails, i + 1, fs1)
      case Stop(fs1, err) => (fs1, err)
  }

  /** `Untar(r)`: `filepath.Abs(".")` may fail before anything is read; then the loop. */
  function UntarSpec(a: Archive, fs: FsMap, cwd: Key, umask: Perm, fails: Faults): (FsMap, Option<Error>)
  {
    if fails(Getwd).Some? then (fs, Some(fails(Getwd).value.err))
    else UntarFrom(a, cwd, umask, fails, 0, fs)
  }

  // ---------------------------------------------------------------- where entries land

  /** `Rel("/", name)` cannot fail on an absolute name, so every entry has a destination. */
  lemma DestNeverFails(cwd: Key, name: Path)
    ensures Dest(cwd, name).Ok?
  {
    if name.abs {
      RelFromRoot(name);
    }
  }

  /** An absolute name is put at the same elements below the working directory. */
  lemma DestOfAbsolute(cwd: Key, name: Path)
    requires IsCleanSegs(true, cwd) && name.abs
    ensures Dest(cwd, name) == Ok(cwd + Clean(name).segs)
  {
    RelFromRoot(name);
    var segs := Clean(name).segs;
    CleanAbsConcat(cwd, segs);
    CleanFromOfClean(true, [], cwd + segs);
    assert [] + (cwd + segs) == cwd + segs;
  }

  /** Absolute names, and relative names without "..", land inside the working directory. */
  lemma DestUnderCwd(cwd: Key, name: Path)
    requires IsCleanSegs(true, cwd)
    requires name.abs || forall i :: 0 <= i < |name.segs| ==> name.segs[i] != ".."
    ensures Dest(cwd, name).Ok?
    ensures var d := Dest(cwd, name).value; |cwd| <= |d| && d[..|cwd|] == cwd
  {
    var f := if name.abs then Path(false, Clean(name).segs) else name;
    if name.abs {
      RelFromRoot(name);
    }
    assert Dest(cwd, name) == Ok(Join(Path(true, cwd), f).segs);
    CleanFromAppend(true, [], cwd, f.segs);
    assert [] + cwd == cwd;
    CleanFromOfClean(true, [], cwd);
    CleanFromKeepsPrefix(true, cwd, f.segs);
  }

  /** ".." in a name is not rejected: it climbs out of the working directory. */
  lemma DotDotEscapes()
    ensures Dest(["home", "u"], Path(false, ["..", "..", "etc", "passwd"])) == Ok(["etc", "passwd"])
  {
    var s := ["home", "u", "..", "..", "etc", "passwd"];
    assert ["home", "u"] + ["..", "..", "etc", "passwd"] == s;
    assert CleanFrom(true, [], s) == CleanFrom(true, ["home"], s[1..]);
    assert CleanFrom(true, ["home"], s[1..]) == CleanFrom(true, ["home", "u"], s[2..]);
    assert CleanFrom(true, ["home", "u"], s[2..]) == CleanFrom(true, ["home"], s[3..]);
    assert CleanFrom(true, ["home"], s[3..]) == CleanFrom(true, [], s[4..]);
    assert CleanFrom(true, [], s[4..]) == CleanFrom(true, ["etc"], s[5..]);
    assert CleanFrom(true, ["etc"], s[5..]) == CleanFrom(true, ["etc", "passwd"], []);
  }

  /**
   * Packing and unpacking agree on places: below an absolute root an entry lands at the same
   * names below the extracting working directory; below a relative root it lands where it was
   * found, when both sides run in the same working directory.
   */
  lemma NameRoundTrip(root: Path, p: Path, cwd: Key)
    requires IsClean(root) && Pack.Descends(root, p) && IsCleanSegs(true, cwd)
    ensures Pack.EntryName(root, p).Ok?
    ensures root.abs ==> Dest(cwd, Pack.EntryName(root, p).value) == Ok(cwd + p.segs[|root.segs|..])
    ensures !root.abs ==> Dest(cwd, Pack.EntryName(root, p).value) == Ok(Resolve(cwd, p))
  {
    Pack.EntryNameBelow(root, p);
    if root.abs {
      var rest := p.segs[|root.segs|..];
      assert forall i :: 0 <= i < |cwd| ==> Plain(cwd[i]);
      JoinPlain(Path(true, cwd), rest);
    }
  }

  // ---------------------------------------------------------------- what one entry does

  /** What a step may change: it removes nothing, and whatever it adds or changes is `dest` or one of its ancestors. */
  ghost predicate Confined(fs: FsMap, fs': FsMap, dest: Key)
  {
    && (forall k :: k in fs ==> k in fs')
    && (forall k :: k in fs' && (k !in fs || fs'[k] != fs[k]) ==> |k| <= |dest| && k == dest[..|k|])
  }

  /** Putting one node at `dest` is confined to `dest`. */
  lemma ConfinedPut(fs: FsMap, dest: Key, n: Node)
    ensures Confined(fs, fs[dest := n], dest)
  {
    assert dest[..|dest|] == dest;
  }

  lemma WriteFileConfined(fs: FsMap, umask: Perm, fails: Faults, i: nat, dest: Key, e: Entry)
    ensures Confined(fs, WriteFile(fs, umask, fails, i, dest, e).fs, dest)
  {
    if fails(OpenWrite(i)).None? && OpenTrunc(fs, dest, e.hdr.perm, umask).Ok? {
      var n := File(Written(fails, i, e), TruncPerm(fs, dest, e.hdr.perm, umask));
      assert WriteFile(fs, umask, fails, i, dest, e).fs == fs[dest := n];
      ConfinedPut(fs, dest, n);
    }
  }

  lemma StepConfined(fs: FsMap, cwd: Key, umask: Perm, fails: Faults, i: nat, e: Entry)
    ensures Dest(cwd, e.hdr.name).Ok?
    ensures Confined(fs, Step(fs, cwd, umask, fails, i, e).fs, Dest(cwd, e.hdr.name).value)
  {
    DestNeverFails(cwd, e.hdr.name);
    var dest := Dest(cwd, e.hdr.name).value;
    var fs' := Step(fs, cwd, umask, fails, i, e).fs;
    if e.hdr.kind == SymbolicLink {
      ConfinedPut(fs, dest, Symlink(Join(Dot, e.hdr.linkname)));
    } else if e.hdr.kind == Directory {
      if fails(MakeDirs(i)).None? && MkdirAll(fs, dest, Masked(DirPerm, umask)).Ok? {
        assert Grows(fs, fs', dest, Masked(DirPerm, umask));
      }
    } else {
      assert fs' == WriteFile(fs, umask, fails, i, dest, e).fs;
      WriteFileConfined(fs, umask, fails, i, dest, e);
    }
  }

  /** A symbolic-link entry never stops extraction; the link, if made, points to `Join(".", Linkname)`, never an absolute path. */
  lemma SymlinkStep(fs: FsMap, cwd: Key, umask: Perm, fails: Faults, i: nat, e: Entry, dest: Key)
    requires e.hdr.kind == SymbolicLink && Dest(cwd, e.hdr.name) == Ok(dest)
    ensures Step(fs, cwd, umask, fails, i, e).Next?
    ensures !Join(Dot, e.hdr.linkname).abs
    ensures var fs' := Step(fs, cwd, umask, fails, i, e).fs;
      fs' == fs || fs' == fs[dest := Symlink(Join(Dot, e.hdr.linkname))]
    ensures fails(MakeSymlink(i)).None? && Lookup(fs, dest).None? && IsDirAt(fs, Parent(dest)) ==>
      Step(fs, cwd, umask, fails, i, e).fs == fs[dest := Symlink(Join(Dot, e.hdr.linkname))]
  {
    JoinDot(e.hdr.linkname);
  }

  /** A directory entry makes `dest` and its missing ancestors at 0755 less the umask, or stops with the error; doing it twice is doing it once. */
  lemma DirectoryStep(fs: FsMap, cwd: Key, umask: Perm, fails: Faults, i: nat, j: nat, e: Entry, dest: Key)
    requires e.hdr.kind == Directory && Dest(cwd, e.hdr.name) == Ok(dest)
    requires fails(MakeDirs(i)).None? && fails(MakeDirs(j)).None?
    ensures Step(fs, cwd, umask, fails, i, e).Next? <==> MkdirAll(fs, dest, Masked(DirPerm, umask)).Ok?
    ensures Step(fs, cwd, umask, fails, i, e).Stop? ==>
      Step(fs, cwd, umask, fails, i, e) == Stop(fs, Some(MkdirAll(fs, dest, Masked(DirPerm, umask)).error))
    ensures Step(fs, cwd, umask, fails, i, e).Next? ==>
      var fs' := Step(fs, cwd, umask, fails, i, e).fs;
      IsDirAt(fs', dest) && Step(fs', cwd, umask, fails, j, e) == Next(fs')
  {
  }

  /**
   * A complete regular-file entry whose calls do not fail leaves exactly a file holding its body
   * at `dest`: with the entry's permission bits less the umask when it is new, with the old mode
   * when an existing file is truncated.
   */
  lemma RegularFileStep(fs: FsMap, cwd: Key, umask: Perm, fails: Faults, i: nat, e: Entry, dest: Key)
    requires e.hdr.kind == Regular && Full(e) && Dest(cwd, e.hdr.name) == Ok(dest)
    requires fails(OpenWrite(i)).None? && fails(WriteBody(i)).None? && fails(CloseFile(i)).None?
    requires (Lookup(fs, dest).None? && IsDirAt(fs, Parent(dest))) || (dest in fs && fs[dest].File?)
    ensures Step(fs, cwd, umask, fails, i, e) == Next(fs[dest := File(e.body, TruncPerm(fs, dest, e.hdr.perm, umask))])
  {
    assert Delivered(e) == e.body;
  }

  /**
   * A body shorter than its declared size never passes for a whole file: extraction stops with an
   * error (the reader's `UnexpectedEof`, or the failing write's), leaving the prefix it wrote in place.
   */
  lemma TruncatedBodyFails(fs: FsMap, cwd: Key, umask: Perm, fails: Faults, i: nat, e: Entry, dest: Key)
    requires Short(e) && Dest(cwd, e.hdr.name) == Ok(dest)
    requires fails(OpenWrite(i)).None? && fails(CloseFile(i)).None? && OpenTrunc(fs, dest, e.hdr.perm, umask).Ok?
    ensures var o := Step(fs, cwd, umask, fails, i, e);
      o.Stop? && o.err.Some? && o.fs == fs[dest := File(Written(fails, i, e), TruncPerm(fs, dest, e.hdr.perm, umask))]
    ensures fails(WriteBody(i)).None? ==> Step(fs, cwd, umask, fails, i, e).err == Some(UnexpectedEof)
  {
    assert |Written(fails, i, e)| <= |Delivered(e)| < e.hdr.size;
  }

  /**
   * A hard link, device or FIFO entry goes down the regular-file branch, but archive/tar yields
   * no body for it: when its header declares a size, the byte-count check (tar/tar.go:145-146)
   * stops extraction, leaving an empty file behind.
   */
  lemma HeaderOnlyFileMismatch(fs: FsMap, cwd: Key, umask: Perm, fails: Faults, i: nat, e: Entry, dest: Key)
    requires e.hdr.kind in {HardLink, CharDevice, BlockDevice, Fifo} && e.hdr.size > 0
    requires Dest(cwd, e.hdr.name) == Ok(dest)
    requires fails(OpenWrite(i)).None? && fails(CloseFile(i)).None? && OpenTrunc(fs, dest, e.hdr.perm, umask).Ok?
    ensures Step(fs, cwd, umask, fails, i, e)
      == Stop(fs[dest := File([], TruncPerm(fs, dest, e.hdr.perm, umask))], Some(UnexpectedBytesWritten(0, e.hdr.size)))
  {
    assert HeaderOnly(e.hdr.kind);
    assert Written(fails, i, e) == [];
  }

  /** A regular-file entry whose destination is a directory stops extraction with EISDIR and changes nothing. */
  lemma FileOverDirectory(fs: FsMap, cwd: Key, umask: Perm, fails: Faults, i: nat, e: Entry, dest: Key)
    requires e.hdr.kind == Regular && Dest(cwd, e.hdr.name) == Ok(dest) && fails(OpenWrite(i)).None?
    requires IsDirAt(fs, dest)
    ensures Step(fs, cwd, umask, fails, i, e) == Stop(fs, Some(PathError("open", dest, EISDIR)))
  {
  }

  /**
   * A failing `Close` stops extraction but reports success (tar/tar.go:139-141): the error
   * returned is the nil one from `os.OpenFile`, whatever the copy did and whatever entries remain.
   */
  lemma CloseFailureReportsSuccess(a: Archive, cwd: Key, umask: Perm, fails: Faults, i: nat, fs: FsMap, dest: Key)
    requires NextAt(a, i).Ok? && NextAt(a, i).value.Some?
    requires var e := a.entries[i];
      && e.hdr.kind == Regular && Dest(cwd, e.hdr.name) == Ok(dest)
      && fails(OpenWrite(i)).None? && OpenTrunc(fs, dest, e.hdr.perm, umask).Ok? && fails(CloseFile(i)).Some?
    ensures UntarFrom(a, cwd, umask, fails, i, fs).1.None?
  {
  }

  // ---------------------------------------------------------------- one entry there and back

  /** What extraction makes of the entry packed for node `n` whose link target was read as `link`. */
  function Restored(n: Node, link: Path, umask: Perm): Node
  {
    match n
    case File(data, p) => File(data, Masked(p, umask))
    case Dir(_) => Dir(Masked(DirPerm, umask))
    case Symlink(_) => Symlink(Join(Dot, link))
  }

  /**
   * The entry the walk callback wrote for node `n`, extracted with no failing call at a free place
   * under a directory, recreates the node: a file with its bytes and its permission bits less the
   * umask, a directory, or a link to the target that was read; below a relative root a link with a
   * clean relative target comes back as it was.
   */
  lemma EntryRoundTrip(c: Pack.Ctx, file: Path, n: Node, es: seq<Entry>, fs: FsMap, cwd: Key, umask: Perm, fails: Faults, i: nat, dest: Key)
    requires Pack.Visit(c, file, n, es).1.None? && Pack.EntryName(c.root, file).Ok?
    requires Dest(cwd, Pack.EntryName(c.root, file).value) == Ok(dest)
    requires dest != [] && Lookup(fs, dest).None? && IsDirAt(fs, Parent(dest))
    requires forall call :: fails(call).None?
    ensures var e := Pack.Visit(c, file, n, es).0[|es|];
      var link := if n.Symlink? then Pack.ReadLink(c, Pack.EntryName(c.root, file).value).value else Dot;
      Step(fs, cwd, umask, fails, i, e) == Next(fs[dest := Restored(n, link, umask)])
    ensures n.Symlink? && !c.root.abs && Lookup(c.fs, Resolve(c.cwd, file)) == Some(n) && IsClean(n.target) && !n.target.abs ==>
      Step(fs, cwd, umask, fails, i, Pack.Visit(c, file, n, es).0[|es|]) == Next(fs[dest := n])
  {
    Pack.VisitContent(c, file, n, es);
    var name := Pack.EntryName(c.root, file).value;
    var link := if n.Symlink? then Pack.ReadLink(c, name).value else Dot;
    var e := Entry(Pack.HeaderOf(name, n, link), Pack.Content(n));
    assert Pack.Visit(c, file, n, es).0[|es|] == e;
    assert fails(OpenWrite(i)).None? && fails(WriteBody(i)).None? && fails(CloseFile(i)).None?;
    assert fails(MakeDirs(i)).None? && fails(MakeSymlink(i)).None?;
    match n
    case File(data, p) =>
      RegularFileStep(fs, cwd, umask, fails, i, e, dest);
    case Dir(_) =>
      assert MkdirAll(fs, Parent(dest), Masked(DirPerm, umask)) == Ok(fs);
    case Symlink(t) =>
      SymlinkStep(fs, cwd, umask, fails, i, e, dest);
      JoinDot(link);
  }

  // ---------------------------------------------------------------- the whole loop

  lemma StepKeepsTree(fs: FsMap, cwd: Key, umask: Perm, fails: Faults, i: nat, e: Entry)
    requires Tree(fs)
    ensures Tree(Step(fs, cwd, umask, fails, i, e).fs)
  {
    DestNeverFails(cwd, e.hdr.name);
    var dest := Dest(cwd, e.hdr.name).value;
    if e.hdr.kind == SymbolicLink {
      var target := Join(Dot, e.hdr.linkname);
      if fails(MakeSymlink(i)).None? && SymlinkAt(fs, target, dest).Ok? {
        CreateKeepsTree(fs, dest, Symlink(target));
      }
    } else if e.hdr.kind == Directory {
      var mode := Masked(DirPerm, umask);
      if fails(MakeDirs(i)).None? && MkdirAll(fs, dest, mode).Ok? {
        MkdirAllKeepsTree(fs, dest, mode);
      }
    } else {
      assert Step(fs, cwd, umask, fails, i, e).fs == WriteFile(fs, umask, fails, i, dest, e).fs;
      WriteFileKeepsTree(fs, umask, fails, i, dest, e);
    }
  }

  lemma WriteFileKeepsTree(fs: FsMap, umask: Perm, fails: Faults, i: nat, dest: Key, e: Entry)
    requires Tree(fs)
    ensures Tree(WriteFile(fs, umask, fails, i, dest, e).fs)
  {
    if fails(OpenWrite(i)).None? && OpenTrunc(fs, dest, e.hdr.perm, umask).Ok? {
      var n := File(Written(fails, i, e), TruncPerm(fs, dest, e.hdr.perm, umask));
      assert dest != [];
      CreateKeepsTree(fs, dest, n);
      assert WriteFile(fs, umask, fails, i, dest, e).fs == fs[dest := n];
    }
  }

  /** Extraction keeps the tree shape of the file system. */
  lemma {:induction false} UntarKeepsTree(a: Archive, cwd: Key, umask: Perm, fails: Faults, i: nat, fs: FsMap)
    requires Tree(fs)
    ensures Tree(UntarFrom(a, cwd, umask, fails, i, fs).0)
    decreases |a.entries| - i
  {
    var n := NextAt(a, i);
    if n.Ok? && n.value.Some? {
      var o := Step(fs, cwd, umask, fails, i, n.value.value);
      StepKeepsTree(fs, cwd, umask, fails, i, n.value.value);
      if o.Next? {
        UntarKeepsTree(a, cwd, umask, fails, i + 1, o.fs);
      }
    }
  }

  /** An archive of symbolic links is read to its end whatever fails: the result is what the stream ends with. */
  lemma {:induction false} SymlinksNeverStop(a: Archive, cwd: Key, umask: Perm, fails: Faults, i: nat, fs: FsMap)
    requires i <= |a.entries|
    requires forall j :: 0 <= j < |a.entries| ==> a.entries[j].hdr.kind == SymbolicLink
    ensures UntarFrom(a, cwd, umask, fails, i, fs).1 == a.end
    decreases |a.entries| - i
  {
    if i < |a.entries| {
      var e := a.entries[i];
      DestNeverFails(cwd, e.hdr.name);
      SymlinkStep(fs, cwd, umask, fails, i, e, Dest(cwd, e.hdr.name).value);
      SymlinksNeverStop(a, cwd, umask, fails, i + 1, Step(fs, cwd, umask, fails, i, e).fs);
    }
  }

  method Untar(fsys: FileSystem, input: Archive, fails: Faults) returns (err: Option<Error>)
    modifies fsys
    ensures fsys.cwd == old(fsys.cwd) && fsys.umask == old(fsys.umask)
    ensures (fsys.nodes, err) == UntarSpec(input, old(fsys.nodes), fsys.cwd, fsys.umask, fails)
  {
    if fails(Getwd).Some? {
      return Some(fails(Getwd).value.err);
    }
    var tr := new TarReader(input);
    ghost var fs0 := fsys.nodes;
    while true
      invariant fsys.cwd == old(fsys.cwd) && fsys.umask == old(fsys.umask)
      invariant tr.archive == input
      invariant UntarFrom(input, fsys.cwd, fsys.umask, fails, tr.pos, fsys.nodes) == UntarFrom(input, fsys.cwd, fsys.umask, fails, 0, fs0)
      decreases |input.entries| - tr.pos
    {
      var next := tr.Next();
      if next.Failure? {
        return Some(next.error);
      }
      if next.value.None? {
        return None;
      }
      var stop;
      stop, err := Extract(fsys, tr, fails, tr.pos - 1, next.value.value);
      if stop {
        return;
      }
    }
  }

  /** The loop body for the `i`-th entry, whose header `Next` has just returned. */
  method Extract(fsys: FileSystem, tr: TarReader, fails: Faults, i: nat, hdr: Header) returns (stop: bool, err: Option<Error>)
    requires tr.pos == i + 1 && i < |tr.archive.entries| && tr.archive.entries[i].hdr == hdr && !tr.drained
    modifies fsys, tr
    ensures fsys.cwd == old(fsys.cwd) && fsys.umask == old(fsys.umask) && tr.pos == old(tr.pos)
    ensures var o := Step(old(fsys.nodes), fsys.cwd, fsys.umask, fails, i, tr.archive.entries[i]);
      if stop then o == Stop(fsys.nodes, err) else o == Next(fsys.nodes)
  {
    var dk := Dest(fsys.cwd, hdr.name);
    if dk.Failure? {
      return true, Some(dk.error);
    }
    var dest := dk.value;
    if hdr.kind == SymbolicLink {
      if fails(MakeSymlink(i)).None? {
        // a failure here is only printed as a warning
        var warning := fsys.NewSymlink(Join(Dot, hdr.linkname), dest);
      }
      return false, None;
    }
    if hdr.kind == Directory {
      if fails(MakeDirs(i)).Some? {
        return true, Some(fails(MakeDirs(i)).value.err);
      }
      err := fsys.Mkdirs(dest, DirPerm);
      return err.Some?, err;
    }
    stop, err := ExtractFile(fsys, tr, fails, i, hdr, dest);
  }

  /** The regular-file branch: create or truncate, copy the body, close, check the count. */
  method ExtractFile(fsys: FileSystem, tr: TarReader, fails: Faults, i: nat, hdr: Header, dest: Key) returns (stop: bool, err: Option<Error>)
    requires tr.pos == i + 1 && i < |tr.archive.entries| && tr.archive.entries[i].hdr == hdr && !tr.drained
    modifies fsys, tr
    ensures fsys.cwd == old(fsys.cwd) && fsys.umask == old(fsys.umask) && tr.pos == old(tr.pos)
    ensures var o := WriteFile(old(fsys.nodes), fsys.umask, fails, i, dest, tr.archive.entries[i]);
      if stop then o == Stop(fsys.nodes, err) else o == Next(fsys.nodes)
  {
    if fails(OpenWrite(i)).Some? {
      return true, Some(fails(OpenWrite(i)).value.err);
    }
    err := fsys.Open(dest, hdr.perm);
    if err.Some? {
      return true, err;
    }
    var data, readErr := tr.ReadBody();
    var wf := fails(WriteBody(i));
    var written := data;
    var cpErr := readErr;
    if wf.Some? && wf.value.done < |data| {
      written, cpErr := data[..wf.value.done], Some(wf.value.err);
    }
    assert written == Written(fails, i, tr.archive.entries[i]);
    assert cpErr == CopyErr(fails, i, tr.archive.entries[i]);
    ghost var afterOpen := fsys.nodes;
    assert afterOpen[dest].data == [];
    fsys.Write(dest, written);
    assert [] + written == written;
    if fails(CloseFile(i)).Some? {
      // the error returned is the one `os.OpenFile` gave, which is nil
      return true, err;
    }
    if cpErr.Some? {
      return true, cpErr;
    }
    var n: nat := |written|;
    if n != hdr.size {
      return true, Some(UnexpectedBytesWritten(n, hdr.size));
    }
    return false, None;
  }
}
