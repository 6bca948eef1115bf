/**
 * Lexical path operations of Go's `path/filepath` on Unix (`Clean`, `Join`, `Rel`, `IsAbs`),
 * over paths already split at their `/` separators.
 */
module Paths {
  import opened Common

  /** `abs` is `IsAbs`: the path starts at the root. `segs` are the elements between separators. */
  datatype Path = Path(abs: bool, segs: seq<string>)

  /** "." (also what the empty string cleans to). */
  const Dot := Path(false, [])
  /** "/". */
  const Root := Path(true, [])

  /** A name that `Clean` keeps as it is in any position. */
  predicate Plain(s: string) { s != "" && s != "." && s != ".." }

  predicate AllPlain(s: seq<string>) { forall i :: 0 <= i < |s| ==> Plain(s[i]) }

  /** The shape `Clean` leaves: no empty or "." elements, ".." only leading and only on relative paths. */
  predicate IsCleanSegs(abs: bool, s: seq<string>)
  {
    && (forall i :: 0 <= i < |s| ==> s[i] != "" && s[i] != ".")
    && (forall i, j :: 0 <= i < j < |s| && s[j] == ".." ==> s[i] == "..")
    && (abs ==> forall i :: 0 <= i < |s| ==> s[i] != "..")
  }

  predicate IsClean(p: Path) { IsCleanSegs(p.abs, p.segs) }

  /** One element of `Clean`'s left-to-right scan. */
  function Push(abs: bool, acc: seq<string>, s: string): seq<string>
  {
    if s == "" || s == "." then acc
    else if s == ".." then
      if |acc| > 0 && acc[|acc| - 1] != ".." then acc[..|acc| - 1]
      else if abs then acc
      else acc + [".."]
    else acc + [s]
  }

  function CleanFrom(abs: bool, acc: seq<string>, s: seq<string>): seq<string>
    decreases |s|
  {
    if s == [] then acc else CleanFrom(abs, Push(abs, acc, s[0]), s[1..])
  }

  lemma PushKeepsClean(abs: bool, acc: seq<string>, s: string)
    requires IsCleanSegs(abs, acc)
    ensures IsCleanSegs(abs, Push(abs, acc, s))
  {
    if s == ".." && !(|acc| > 0 && acc[|acc| - 1] != "..") && !abs {
      var r := acc + [".."];
      forall i, j | 0 <= i < j < |r| && r[j] == ".."
        ensures r[i] == ".."
      {
        if j < |acc| {
        } else if i < |acc| - 1 {
          assert acc[|acc| - 1] == "..";
        }
      }
    }
  }

  lemma {:induction false} CleanFromKeepsClean(abs: bool, acc: seq<string>, s: seq<string>)
    requires IsCleanSegs(abs, acc)
    ensures IsCleanSegs(abs, CleanFrom(abs, acc, s))
    decreases |s|
  {
    if s != [] {
      PushKeepsClean(abs, acc, s[0]);
      CleanFromKeepsClean(abs, Push(abs, acc, s[0]), s[1..]);
    }
  }

  /** `filepath.Clean`: the shortest lexically equivalent path. */
  function Clean(p: Path): (r: Path)
    ensures r.abs == p.abs && IsClean(r)
  {
    CleanFromKeepsClean(p.abs, [], p.segs);
    Path(p.abs, CleanFrom(p.abs, [], p.segs))
  }

  /** Scanning clean elements onto a clean prefix appends them unchanged. */
  lemma {:induction false} CleanFromOfClean(abs: bool, acc: seq<string>, s: seq<string>)
    requires IsCleanSegs(abs, acc + s)
    ensures CleanFrom(abs, acc, s) == acc + s
    decreases |s|
  {
    if s != [] {
      var t := acc + s;
      assert t[|acc|] == s[0];
      if s[0] == ".." {
        assert forall i :: 0 <= i < |acc| ==> t[i] == ".." && acc[i] == t[i];
      }
      assert Push(abs, acc, s[0]) == acc + [s[0]];
      assert (acc + [s[0]]) + s[1..] == t;
      CleanFromOfClean(abs, acc + [s[0]], s[1..]);
    }
  }

  /** `Clean` leaves a clean path alone, so it is idempotent. */
  lemma CleanOfClean(p: Path)
    requires IsClean(p)
    ensures Clean(p) == p
  {
    CleanFromOfClean(p.abs, [], p.segs);
  }

  lemma CleanIdempotent(p: Path)
    ensures Clean(Clean(p)) == Clean(p)
  {
    CleanOfClean(Clean(p));
  }

  /** `filepath.Join(a, b)` for a first element that is not the empty string: `Clean(a + "/" + b)`. */
  function Join(a: Path, b: Path): Path
  {
    Clean(Path(a.abs, a.segs + b.segs))
  }

  /** Joining plain names onto a clean directory appends them. */
  lemma JoinPlain(d: Path, names: seq<string>)
    requires IsClean(d) && AllPlain(names)
    ensures Join(d, Path(false, names)) == Path(d.abs, d.segs + names)
  {
    var s := d.segs + names;
    assert forall i :: |d.segs| <= i < |s| ==> s[i] == names[i - |d.segs|];
    CleanFromOfClean(d.abs, [], s);
  }

  /** `Clean`'s scan of one more element is one more `Push`. */
  lemma {:induction false} CleanFromSnoc(abs: bool, acc: seq<string>, s: seq<string>, x: string)
    ensures CleanFrom(abs, acc, s + [x]) == Push(abs, CleanFrom(abs, acc, s), x)
    decreases |s|
  {
    if s == [] {
      assert [] + [x] == [x];
    } else {
      assert (s + [x])[1..] == s[1..] + [x];
      CleanFromSnoc(abs, Push(abs, acc, s[0]), s[1..], x);
    }
  }

  /** `Clean`'s scan of `s + t` is the scan of `t` from where the scan of `s` left off. */
  lemma {:induction false} CleanFromAppend(abs: bool, acc: seq<string>, s: seq<string>, t: seq<string>)
    ensures CleanFrom(abs, acc, s + t) == CleanFrom(abs, CleanFrom(abs, acc, s), t)
    decreases |s|
  {
    if s == [] {
      assert s + t == t;
    } else {
      assert (s + t)[0] == s[0] && (s + t)[1..] == s[1..] + t;
      CleanFromAppend(abs, Push(abs, acc, s[0]), s[1..], t);
    }
  }

  /** Without "..", `Clean` never climbs back over what it has already kept. */
  lemma {:induction false} CleanFromKeepsPrefix(abs: bool, acc: seq<string>, s: seq<string>)
    requires forall i :: 0 <= i < |s| ==> s[i] != ".."
    ensures |acc| <= |CleanFrom(abs, acc, s)| && CleanFrom(abs, acc, s)[..|acc|] == acc
    decreases |s|
  {
    if s != [] {
      var acc' := Push(abs, acc, s[0]);
      assert |acc| <= |acc'| && acc'[..|acc|] == acc;
      CleanFromKeepsPrefix(abs, acc', s[1..]);
      var r := CleanFrom(abs, acc', s[1..]);
      assert r[..|acc|] == r[..|acc'|][..|acc|];
    }
  }

  /** Appending a plain name commutes with `Clean`. */
  lemma CleanSnocPlain(p: Path, n: string)
    requires Plain(n)
    ensures Clean(Path(p.abs, p.segs + [n])) == Path(p.abs, Clean(p).segs + [n])
  {
    CleanFromSnoc(p.abs, [], p.segs, n);
  }

  /** Two clean absolute element lists make a clean absolute list together. */
  lemma CleanAbsConcat(a: seq<string>, b: seq<string>)
    requires IsCleanSegs(true, a) && IsCleanSegs(true, b)
    ensures IsCleanSegs(true, a + b)
  {
    assert forall i :: 0 <= i < |a + b| ==> (a + b)[i] == if i < |a| then a[i] else b[i - |a|];
  }

  /** Number of leading elements `a` and `b` share. */
  function CommonPrefix(a: seq<string>, b: seq<string>): (k: nat)
    ensures k <= |a| && k <= |b| && a[..k] == b[..k]
    ensures k < |a| && k < |b| ==> a[k] != b[k]
  {
    if a == [] || b == [] || a[0] != b[0] then 0
    else
      var k := CommonPrefix(a[1..], b[1..]);
      assert a[..k + 1] == [a[0]] + a[1..][..k];
      assert b[..k + 1] == [b[0]] + b[1..][..k];
      1 + k
  }

  function Ups(n: nat): (r: seq<string>)
    ensures |r| == n && forall i :: 0 <= i < n ==> r[i] == ".."
  {
    if n == 0 then [] else [".."] + Ups(n - 1)
  }

  /**
   * `filepath.Rel(base, targ)`: a relative path that joined onto `base` names `targ`;
   * `None` when the two are not both absolute or both relative, or when `base` would
   * have to climb through one of its own leading "..".
   */
  function Rel(base: Path, targ: Path): Option<Path>
  {
    var b, t := Clean(base), Clean(targ);
    if b == t then Some(Dot)
    else if b.abs != t.abs then None
    else
      var k := CommonPrefix(b.segs, t.segs);
      if k < |b.segs| && b.segs[k] == ".." then None
      else Some(Path(false, Ups(|b.segs| - k) + t.segs[k..]))
  }

  /** `Rel` of a path below a clean root strips the root: the root itself becomes ".". */
  lemma RelOfDescendant(root: Path, rest: seq<string>)
    requires IsClean(root) && AllPlain(rest)
    ensures Rel(root, Path(root.abs, root.segs + rest)) == Some(Path(false, rest))
  {
    var t := Path(root.abs, root.segs + rest);
    JoinPlain(root, rest);
    CleanOfClean(root);
    assert Clean(t) == t by { CleanIdempotent(Path(root.abs, root.segs + rest)); }
    if rest != [] {
      assert root != t;
      var k := CommonPrefix(root.segs, t.segs);
      assert t.segs[..|root.segs|] == root.segs;
      assert k == |root.segs|;
      assert t.segs[k..] == rest;
      assert Ups(0) + rest == rest;
    } else {
      assert t == root;
    }
  }

  /** `Rel("/", name)` never fails for an absolute name: it drops the root from the cleaned name. */
  lemma RelFromRoot(name: Path)
    requires name.abs
    ensures Rel(Root, name) == Some(Path(false, Clean(name).segs))
  {
    CleanOfClean(Root);
    var t := Clean(name);
    assert Ups(0) + t.segs[0..] == t.segs;
  }

  /** `filepath.Join(".", l)` never yields an absolute path and leaves a clean relative path alone. */
  lemma JoinDot(l: Path)
    ensures !Join(Dot, l).abs
    ensures IsClean(l) && !l.abs ==> Join(Dot, l) == l
    ensures IsClean(l) && l.abs ==> Join(Dot, l) == Path(false, l.segs)
  {
    assert Dot.segs + l.segs == l.segs;
    if IsClean(l) {
      CleanFromOfClean(false, [], l.segs);
    }
  }
}
