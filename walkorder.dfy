/**
 * The order in which `TarFiles` archives a tree. `Tour` lists the nodes below a key as
 * `filepath.Walk` promises to visit them, from the file system alone: the node itself, then,
 * for a directory, each child's tour in name order. The lemmas show that a walk which returns
 * no error wrote one entry per node of the tour, in that order, named as `EntryNameBelow` says,
 * and that a walk in which no call fails and links are read where they were found does succeed.
 */
module WalkOrder {
  import opened Common
  import opened Paths
  import opened Fs
  import opened TarFormat
  import opened Pack

  // ---------------------------------------------------------------- the tour of a tree

  /** Every relative path of `ts`, one name further down. */
  function Under(n: string, ts: seq<seq<string>>): (r: seq<seq<string>>)
    ensures |r| == |ts| && forall j :: 0 <= j < |ts| ==> r[j] == [n] + ts[j]
  {
    seq(|ts|, j requires 0 <= j < |ts| => [n] + ts[j])
  }

  /** The relative paths of the node at `key` and of what lies below it, each directory before its contents. */
  ghost function Tour(fs: FsMap, key: Key): (r: seq<seq<string>>)
    ensures |r| > 0 && r[0] == []
    decreases Subtree(fs, key), 1
  {
    if IsDirAt(fs, key) then [[]] + Tours(fs, key, ChildNames(fs, key), 0) else [[]]
  }

  /** The tours of the children `names[i..]` of `key`, one after the other. */
  ghost function Tours(fs: FsMap, key: Key, names: seq<string>, i: nat): seq<seq<string>>
    requires i <= |names| && forall j :: 0 <= j < |names| ==> names[j] in NameSet(fs, key)
    decreases Subtree(fs, key), 0, |names| - i
  {
    if i == |names| then []
    else
      NameSetMember(fs, key, names[i]);
      SubtreeShrinks(fs, key, names[i]);
      Under(names[i], Tour(fs, key + [names[i]])) + Tours(fs, key, names, i + 1)
  }

  /** Below a tree's node, every ancestor of a node is a directory. */
  lemma {:induction false} AncestorIsDir(fs: FsMap, k: Key, m: nat)
    requires Tree(fs) && k in fs && 0 < m < |k|
    ensures k[..m] in fs && fs[k[..m]].Dir?
    decreases |k| - m
  {
    var up := Parent(k);
    assert IsDirAt(fs, up) && up != [];
    if m < |k| - 1 {
      AncestorIsDir(fs, up, m);
      assert up[..m] == k[..m];
    }
  }

  lemma {:induction false} ToursHas(fs: FsMap, key: Key, names: seq<string>, i: nat, j: nat, t: seq<string>)
    requires i <= j < |names| && forall x :: 0 <= x < |names| ==> names[x] in NameSet(fs, key)
    requires key + [names[j]] in fs && t in Under(names[j], Tour(fs, key + [names[j]]))
    ensures t in Tours(fs, key, names, i)
    decreases j - i
  {
    NameSetMember(fs, key, names[i]);
    var here := Under(names[i], Tour(fs, key + [names[i]]));
    assert Tours(fs, key, names, i) == here + Tours(fs, key, names, i + 1);
    if i < j {
      ToursHas(fs, key, names, i + 1, j, t);
    }
  }

  /** A node of a child's tour is in its directory's tour under the child's name. */
  lemma ChildTour(fs: FsMap, key: Key, n: string, rest: seq<string>)
    requires IsDirAt(fs, key) && key + [n] in fs && Plain(n) && rest in Tour(fs, key + [n])
    ensures [n] + rest in Tour(fs, key)
  {
    NameSetMember(fs, key, n);
    var names := ChildNames(fs, key);
    assert n in names;
    var j :| 0 <= j < |names| && names[j] == n;
    var sub := Tour(fs, key + [n]);
    var x :| 0 <= x < |sub| && sub[x] == rest;
    assert Under(n, sub)[x] == [n] + rest;
    ToursHas(fs, key, names, 0, j, [n] + rest);
  }

  /** In a tree whose names are plain, the tour of a directory reaches every node below it. */
  lemma {:induction false} TourComplete(fs: FsMap, key: Key, k: Key)
    requires Tree(fs) && IsDirAt(fs, key) && k in Subtree(fs, key) && AllPlain(k[|key|..])
    ensures k[|key|..] in Tour(fs, key)
    decreases |k| - |key|
  {
    var n := k[|key|];
    var child := key + [n];
    var rest := k[|key| + 1..];
    assert child == k[..|key| + 1];
    assert k[|key|..] == [n] + rest;
    assert Plain(k[|key|..][0]);
    if rest == [] {
      assert k == child;
    } else {
      AncestorIsDir(fs, k, |key| + 1);
      assert k[..|child|] == child && k[|child|..] == rest;
      assert AllPlain(rest) by {
        forall x | 0 <= x < |rest|
          ensures Plain(rest[x])
        {
          assert rest[x] == k[|key|..][x + 1];
        }
      }
      TourComplete(fs, child, k);
    }
    ChildTour(fs, key, n, rest);
  }

  // ---------------------------------------------------------------- the names of the entries

  /** The header names of a run of entries. */
  function NamesOf(es: seq<Entry>): (r: seq<Path>)
    ensures |r| == |es| && forall j :: 0 <= j < |es| ==> r[j] == es[j].hdr.name
  {
    seq(|es|, j requires 0 <= j < |es| => es[j].hdr.name)
  }

  /** The name a walk from `root` gives walk path `p`: the path less the root below an absolute root, else the path. */
  function NameBelow(root: Path, p: Path): Path
    requires |root.segs| <= |p.segs|
  {
    if root.abs then Path(false, p.segs[|root.segs|..]) else p
  }

  /** The names a walk from `root` gives the relative paths `ts` below walk path `path`. */
  function NamesBelow(root: Path, path: Path, ts: seq<seq<string>>): (r: seq<Path>)
    requires |root.segs| <= |path.segs|
    ensures |r| == |ts| && forall j :: 0 <= j < |ts| ==> r[j] == NameBelow(root, Path(path.abs, path.segs + ts[j]))
  {
    seq(|ts|, j requires 0 <= j < |ts| => NameBelow(root, Path(path.abs, path.segs + ts[j])))
  }

  lemma NamesOfSplit(a: seq<Entry>, b: seq<Entry>, c: seq<Entry>)
    requires Extends(a, b) && Extends(b, c)
    ensures NamesOf(c[|a|..]) == NamesOf(b[|a|..]) + NamesOf(c[|b|..])
  {
    assert c[|a|..] == b[|a|..] + c[|b|..] by {
      assert c[..|b|] == b;
    }
  }

  lemma NamesBelowAppend(root: Path, path: Path, s: seq<seq<string>>, t: seq<seq<string>>)
    requires |root.segs| <= |path.segs|
    ensures NamesBelow(root, path, s + t) == NamesBelow(root, path, s) + NamesBelow(root, path, t)
  {
  }

  /** The tour of a child, seen from its directory, names the same paths as seen from the child. */
  lemma NamesBelowUnder(root: Path, dir: Path, n: string, ts: seq<seq<string>>)
    requires |root.segs| <= |dir.segs|
    ensures NamesBelow(root, dir, Under(n, ts)) == NamesBelow(root, Path(dir.abs, dir.segs + [n]), ts)
  {
    forall j | 0 <= j < |ts|
      ensures dir.segs + ([n] + ts[j]) == (dir.segs + [n]) + ts[j]
    {
    }
  }

  // ---------------------------------------------------------------- a walk visits its tour in order

  /** A walk of `path` that returns no error wrote one entry per node of the tour, named in tour order. */
  lemma {:induction false} WalkNodeOrder(c: Ctx, path: Path, n: Node, es: seq<Entry>)
    requires IsClean(c.root) && IsClean(path) && Descends(c.root, path)
    requires Lookup(c.fs, Resolve(c.cwd, path)) == Some(n)
    ensures var r := WalkNode(c, path, n, es);
      r.1.None? ==> NamesOf(r.0[|es|..]) == NamesBelow(c.root, path, Tour(c.fs, Resolve(c.cwd, path)))
    decreases Subtree(c.fs, Resolve(c.cwd, path)), 1, 0
  {
    var key := Resolve(c.cwd, path);
    var v := Visit(c, path, n, es);
    EntryNameBelow(c.root, path);
    assert path.segs + [] == path.segs;
    if v.1.None? {
      assert NamesOf(v.0[|es|..]) == NamesBelow(c.root, path, [[]]);
    }
    if n.Dir? && c.fails(ReadDir(key)).None? && v.1.None? {
      var names := ChildNames(c.fs, key);
      var w := WalkNames(c, path, names, 0, v.0);
      assert WalkNode(c, path, n, es) == w;
      WalkNamesOrder(c, path, names, 0, v.0);
      if w.1.None? {
        NamesOfSplit(es, v.0, w.0);
        NamesBelowAppend(c.root, path, [[]], Tours(c.fs, key, names, 0));
      }
    }
  }

  lemma {:induction false} WalkNamesOrder(c: Ctx, dir: Path, names: seq<string>, i: nat, es: seq<Entry>)
    requires IsClean(c.root) && IsClean(dir) && Descends(c.root, dir)
    requires i <= |names| && ChildrenOf(c, dir, names)
    ensures var r := WalkNames(c, dir, names, i, es);
      r.1.None? ==> NamesOf(r.0[|es|..]) == NamesBelow(c.root, dir, Tours(c.fs, Resolve(c.cwd, dir), names, i))
    decreases Subtree(c.fs, Resolve(c.cwd, dir)), 0, |names| - i
  {
    if i < |names| {
      var key := Resolve(c.cwd, dir);
      var p := Join(dir, Path(false, [names[i]]));
      NameSetMember(c.fs, key, names[i]);
      ChildKey(c.cwd, dir, names[i]);
      SubtreeShrinks(c.fs, key, names[i]);
      DescendsChild(c.root, dir, names[i]);
      var st := LstatAt(c, Resolve(c.cwd, p));
      if st.Ok? {
        var v := WalkNode(c, p, st.value, es);
        WalkNodeOrder(c, p, st.value, es);
        if v.1.None? {
          var w := WalkNames(c, dir, names, i + 1, v.0);
          assert WalkNames(c, dir, names, i, es) == w;
          WalkNamesOrder(c, dir, names, i + 1, v.0);
          if w.1.None? {
            var sub := Tour(c.fs, key + [names[i]]);
            NamesOfSplit(es, v.0, w.0);
            NamesBelowAppend(c.root, dir, Under(names[i], sub), Tours(c.fs, key, names, i + 1));
            NamesBelowUnder(c.root, dir, names[i], sub);
          }
        }
      }
    }
  }

  /** A root's walk that returns no error found the root and wrote its whole tour, in order. */
  lemma WalkRootOrder(c: Ctx, es: seq<Entry>)
    requires IsClean(c.root)
    ensures var r := WalkRoot(c, es);
      r.1.None? ==> (Lookup(c.fs, Resolve(c.cwd, c.root)).Some?
        && NamesOf(r.0[|es|..]) == NamesBelow(c.root, c.root, Tour(c.fs, Resolve(c.cwd, c.root))))
  {
    assert c.root.segs[..|c.root.segs|] == c.root.segs && c.root.segs[|c.root.segs|..] == [];
    var st := LstatAt(c, Resolve(c.cwd, c.root));
    if st.Ok? {
      WalkNodeOrder(c, c.root, st.value, es);
    }
  }

  // ---------------------------------------------------------------- when a walk succeeds

  /** No call fails. */
  ghost predicate Quiet(fails: Faults)
  {
    forall call :: fails(call).None?
  }

  /** Links are read where the walk finds them: the root is relative, or it is the working directory itself. */
  predicate LinksInPlace(c: Ctx)
  {
    !c.root.abs || c.root.segs == c.cwd
  }

  /** Where links are read in place, the link read for a walk path reads the node the walk found. */
  lemma LinkReadInPlace(c: Ctx, file: Path)
    requires IsClean(c.root) && Descends(c.root, file) && LinksInPlace(c)
    ensures Resolve(c.cwd, EntryName(c.root, file).value) == Resolve(c.cwd, file)
  {
    EntryNameBelow(c.root, file);
    if c.root.abs {
      assert AllPlain(c.cwd);
      LinkReadAt(c, file);
      assert c.root.segs + file.segs[|c.root.segs|..] == file.segs;
    }
  }

  /** With no failing call and the previous body complete, the callback writes a complete entry. */
  lemma VisitSucceeds(c: Ctx, file: Path, n: Node, es: seq<Entry>)
    requires IsClean(c.root) && Descends(c.root, file) && Quiet(c.fails) && LinksInPlace(c)
    requires Lookup(c.fs, Resolve(c.cwd, file)) == Some(n) && Missing(es) == 0
    ensures Visit(c, file, n, es).1.None? && Missing(Visit(c, file, n, es).0) == 0
  {
    EntryNameBelow(c.root, file);
    var name := EntryName(c.root, file).value;
    if n.Symlink? {
      LinkReadInPlace(c, file);
      assert c.fails(Readlink(Resolve(c.cwd, name))).None?;
    }
    var link := if n.Symlink? then ReadLink(c, name).value else Dot;
    var h := HeaderOf(name, n, link);
    var es1 := es + [Entry(h, [])];
    assert WriteHeaderStep(es, h).0 == es1;
    if n.File? {
      var key := Resolve(c.cwd, file);
      assert c.fails(OpenRead(key)).None? && c.fails(ReadBody(key)).None?;
      assert Missing(es1) == |n.data|;
    }
    VisitContent(c, file, n, es);
  }

  lemma {:induction false} WalkNodeSucceeds(c: Ctx, path: Path, n: Node, es: seq<Entry>)
    requires IsClean(c.root) && IsClean(path) && Descends(c.root, path) && Quiet(c.fails) && LinksInPlace(c)
    requires Lookup(c.fs, Resolve(c.cwd, path)) == Some(n) && Missing(es) == 0
    ensures WalkNode(c, path, n, es).1.None? && Missing(WalkNode(c, path, n, es).0) == 0
    decreases Subtree(c.fs, Resolve(c.cwd, path)), 1, 0
  {
    var key := Resolve(c.cwd, path);
    VisitSucceeds(c, path, n, es);
    if n.Dir? {
      assert c.fails(ReadDir(key)).None?;
      var v := Visit(c, path, n, es);
      var names := ChildNames(c.fs, key);
      assert WalkNode(c, path, n, es) == WalkNames(c, path, names, 0, v.0);
      WalkNamesSucceeds(c, path, names, 0, v.0);
    }
  }

  lemma {:induction false} WalkNamesSucceeds(c: Ctx, dir: Path, names: seq<string>, i: nat, es: seq<Entry>)
    requires IsClean(c.root) && IsClean(dir) && Descends(c.root, dir) && Quiet(c.fails) && LinksInPlace(c)
    requires i <= |names| && ChildrenOf(c, dir, names) && Missing(es) == 0
    ensures WalkNames(c, dir, names, i, es).1.None? && Missing(WalkNames(c, dir, names, i, es).0) == 0
    decreases Subtree(c.fs, Resolve(c.cwd, dir)), 0, |names| - i
  {
    if i < |names| {
      var key := Resolve(c.cwd, dir);
      var p := Join(dir, Path(false, [names[i]]));
      NameSetMember(c.fs, key, names[i]);
      ChildKey(c.cwd, dir, names[i]);
      SubtreeShrinks(c.fs, key, names[i]);
      DescendsChild(c.root, dir, names[i]);
      assert c.fails(Lstat(Resolve(c.cwd, p))).None?;
      var st := LstatAt(c, Resolve(c.cwd, p));
      var v := WalkNode(c, p, st.value, es);
      WalkNodeSucceeds(c, p, st.value, es);
      assert WalkNames(c, dir, names, i, es) == WalkNames(c, dir, names, i + 1, v.0);
      WalkNamesSucceeds(c, dir, names, i + 1, v.0);
    }
  }

  /** A root that exists, walked with no failing call and links read in place, is archived without error. */
  lemma WalkRootSucceeds(c: Ctx, es: seq<Entry>)
    requires IsClean(c.root) && Quiet(c.fails) && LinksInPlace(c)
    requires Lookup(c.fs, Resolve(c.cwd, c.root)).Some? && Missing(es) == 0
    ensures WalkRoot(c, es).1.None? && Missing(WalkRoot(c, es).0) == 0
  {
    assert c.root.segs[..|c.root.segs|] == c.root.segs && c.root.segs[|c.root.segs|..] == [];
    assert c.fails(Lstat(Resolve(c.cwd, c.root))).None?;
    WalkNodeSucceeds(c, c.root, Lookup(c.fs, Resolve(c.cwd, c.root)).value, es);
  }

  // ---------------------------------------------------------------- the whole archive

  /** The names an archive of `roots[i..]` should hold: each cleaned root's tour in turn. */
  ghost function ArchiveNames(fs: FsMap, cwd: Key, roots: seq<Path>, i: nat): seq<Path>
    requires i <= |roots|
    decreases |roots| - i
  {
    if i == |roots| then []
    else
      var root := Clean(roots[i]);
      NamesBelow(root, root, Tour(fs, Resolve(cwd, root))) + ArchiveNames(fs, cwd, roots, i + 1)
  }

  /** Every one of `roots[i..]` exists and has its links read in place. */
  ghost predicate Walkable(fs: FsMap, cwd: Key, fails: Faults, roots: seq<Path>, i: nat)
  {
    forall j :: i <= j < |roots| ==>
      Lookup(fs, Resolve(cwd, Clean(roots[j]))).Some? && LinksInPlace(Ctx(fs, cwd, Clean(roots[j]), fails))
  }

  lemma {:induction false} TarLoopOrder(fs: FsMap, cwd: Key, fails: Faults, roots: seq<Path>, i: nat, es: seq<Entry>)
    requires i <= |roots| && Quiet(fails) && Walkable(fs, cwd, fails, roots, i) && Missing(es) == 0
    ensures var r := TarLoop(fs, cwd, fails, roots, i, es);
      Missing(r) == 0 && NamesOf(r[|es|..]) == ArchiveNames(fs, cwd, roots, i)
    decreases |roots| - i
  {
    if i < |roots| {
      var c := Ctx(fs, cwd, Clean(roots[i]), fails);
      var w := WalkRoot(c, es);
      WalkRootSucceeds(c, es);
      WalkRootOrder(c, es);
      var r := TarLoop(fs, cwd, fails, roots, i + 1, w.0);
      TarLoopUnfold(fs, cwd, fails, roots, i, es);
      TarLoopOrder(fs, cwd, fails, roots, i + 1, w.0);
      NamesOfSplit(es, w.0, r);
    } else {
      assert NamesOf(es[|es|..]) == [];
    }
  }

  /**
   * `TarFiles` over roots that all exist, with no failing call and links read in place, closes
   * the archive cleanly, and its entries are named by the roots' tours, root after root.
   */
  lemma PackedInTourOrder(roots: seq<Path>, fs: FsMap, cwd: Key, fails: Faults)
    requires Quiet(fails) && Walkable(fs, cwd, fails, roots, 0)
    ensures TarSpec(roots, fs, cwd, fails).1.None? && TarSpec(roots, fs, cwd, fails).0.terminated
    ensures NamesOf(TarSpec(roots, fs, cwd, fails).0.entries) == ArchiveNames(fs, cwd, roots, 0)
  {
    TarLoopOrder(fs, cwd, fails, roots, 0, []);
    var es := TarLoop(fs, cwd, fails, roots, 0, []);
    assert es[0..] == es;
  }
}
