/**
 * The archive as `archive/tar` lets the core see it: a sequence of entries (a header and the
 * body bytes written after it), the writer's rule that every body must be complete before the
 * next header or the end marker, and the reader that hands out one header and body at a time.
 * The binary header blocks and the padding are not modelled.
 */
module TarFormat {
  import opened Common
  import opened Paths
  import opened Errors
  import Fs

  /**
   * The type flag. `OtherKind` stands for every flag archive/tar reads a body for besides
   * `TypeReg` (contiguous files and the like); the others listed here are header-only.
   */
  datatype Kind = Regular | Directory | SymbolicLink | HardLink | CharDevice | BlockDevice | Fifo | OtherKind

  /** Kinds that archive/tar never stores a body for, whatever the header's size says. */
  predicate HeaderOnly(k: Kind)
  {
    k == Directory || k == SymbolicLink || k == HardLink || k == CharDevice || k == BlockDevice || k == Fifo
  }

  /** The header fields the core sets or reads. `perm` is `Mode & 0777`. */
  datatype Header = Header(name: Path, kind: Kind, perm: Fs.Perm, size: nat, linkname: Path)

  datatype Entry = Entry(hdr: Header, body: seq<byte>)

  /** The number of body bytes that follow a header in the stream: none for a header-only kind. */
  function Owed(h: Header): (r: nat)
    ensures r == 0 <==> HeaderOnly(h.kind) || h.size == 0
    ensures !HeaderOnly(h.kind) ==> r == h.size
  {
    if HeaderOnly(h.kind) then 0 else h.size
  }

  /** The body is no longer than the header makes the stream hold (the writer never lets it be). */
  predicate Fits(e: Entry) { |e.body| <= Owed(e.hdr) }

  /** The body is as long as the header makes the stream hold. */
  predicate Full(e: Entry) { |e.body| == Owed(e.hdr) }

  /** The body ends before the header says it should. */
  predicate Short(e: Entry) { |e.body| < Owed(e.hdr) }

  /** How many body bytes the current (last) entry still owes. */
  function Missing(es: seq<Entry>): nat
  {
    if es == [] then 0
    else
      var e := es[|es| - 1];
      if Short(e) then Owed(e.hdr) - |e.body| else 0
  }

  /** What a writer can have produced: every body fits, and all bodies but the last are complete. */
  predicate Intact(es: seq<Entry>)
  {
    && (forall i :: 0 <= i < |es| ==> Fits(es[i]))
    && (forall i :: 0 <= i < |es| - 1 ==> Full(es[i]))
  }

  /** `Writer.WriteHeader` on an open writer: refused while the previous body is short. */
  function WriteHeaderStep(es: seq<Entry>, h: Header): (r: (seq<Entry>, Option<Error>))
    ensures r.1.None? <==> Missing(es) == 0
    ensures r.1.Some? ==> r.0 == es && r.1 == Some(MissedWriting(Missing(es)))
    ensures r.1.None? ==> |r.0| == |es| + 1 && r.0[..|es|] == es && r.0[|es|] == Entry(h, [])
    ensures Intact(es) ==> Intact(r.0)
  {
    if Missing(es) > 0 then (es, Some(MissedWriting(Missing(es))))
    else
      var r := es + [Entry(h, [])];
      assert r[..|es|] == es;
      (r, None)
  }

  /** The outcome of `Writer.Write`: the new entries, the count written, the error. */
  datatype Wrote = Wrote(entries: seq<Entry>, n: nat, err: Option<Error>)

  /**
   * `Writer.Write(b)` on an open writer: as many bytes as the current body still owes go
   * into it, and `ErrWriteTooLong` reports the rest.
   */
  function WriteStep(es: seq<Entry>, b: seq<byte>): (r: Wrote)
    ensures r.n == Min(|b|, Missing(es))
    ensures r.err.Some? <==> |b| > Missing(es)
    ensures r.err.Some? ==> r.err.value == WriteTooLong
    ensures |r.entries| == |es| && (es == [] ==> r.entries == es)
    ensures es != [] ==> r.entries[..|es| - 1] == es[..|es| - 1]
    ensures es != [] ==> var last := r.entries[|es| - 1];
      last.hdr == es[|es| - 1].hdr && last.body == es[|es| - 1].body + b[..r.n]
    ensures Intact(es) ==> Intact(r.entries)
  {
    var n := Min(|b|, Missing(es));
    var err := if |b| > n then Some(WriteTooLong) else None;
    if es == [] then Wrote(es, n, err)
    else
      var e := es[|es| - 1];
      var r := es[..|es| - 1] + [Entry(e.hdr, e.body + b[..n])];
      assert r[..|es| - 1] == es[..|es| - 1];
      Wrote(r, n, err)
  }

  /** `Writer.Close` on an open writer: the end marker goes out only if the last body is complete. */
  function CloseStep(es: seq<Entry>): (r: (bool, Option<Error>))
    ensures r.0 <==> r.1.None?
    ensures r.1.None? <==> Missing(es) == 0
    ensures r.1.Some? ==> r.1.value == MissedWriting(Missing(es))
  {
    if Missing(es) > 0 then (false, Some(MissedWriting(Missing(es)))) else (true, None)
  }

  /** A writer that closed cleanly has written every body in full. */
  lemma ClosedArchiveComplete(es: seq<Entry>)
    requires Intact(es) && CloseStep(es).1.None?
    ensures forall i :: 0 <= i < |es| ==> Full(es[i])
  {
    if es != [] {
      assert Fits(es[|es| - 1]);
    }
  }

  /** A short body poisons the writer: no later header is accepted, and closing fails. */
  lemma ShortBodyBlocksWriter(es: seq<Entry>, h: Header, b: seq<byte>)
    requires Missing(es) > |b|
    ensures WriteHeaderStep(WriteStep(es, b).entries, h).1.Some?
    ensures CloseStep(WriteStep(es, b).entries).1.Some?
  {
    var r := WriteStep(es, b).entries;
    assert r[|es| - 1].body == es[|es| - 1].body + b;
  }

  /** `tar.Writer`: what has gone out so far, and whether `Close` has run. */
  class TarWriter {
    var entries: seq<Entry>
    /** `Close` ran (`tw.err == ErrWriteAfterClose`). */
    var closed: bool
    /** The end-of-archive marker was written. */
    var terminated: bool

    constructor ()
      ensures entries == [] && !closed && !terminated
    {
      entries := [];
      closed := false;
      terminated := false;
    }

    method WriteHeader(h: Header) returns (err: Option<Error>)
      modifies this
      ensures closed == old(closed) && terminated == old(terminated)
      ensures old(closed) ==> entries == old(entries) && err == Some(WriteAfterClose)
      ensures !old(closed) ==> (entries, err) == WriteHeaderStep(old(entries), h)
    {
      if closed {
        err := Some(WriteAfterClose);
      } else {
        var r := WriteHeaderStep(entries, h);
        entries, err := r.0, r.1;
      }
    }

    method Write(b: seq<byte>) returns (n: nat, err: Option<Error>)
      modifies this
      ensures closed == old(closed) && terminated == old(terminated)
      ensures old(closed) ==> entries == old(entries) && n == 0 && err == Some(WriteAfterClose)
      ensures !old(closed) ==> Wrote(entries, n, err) == WriteStep(old(entries), b)
    {
      if closed {
        n, err := 0, Some(WriteAfterClose);
      } else {
        var r := WriteStep(entries, b);
        entries, n, err := r.entries, r.n, r.err;
      }
    }

    /** A second `Close` reports nothing; the first one closes the writer whatever happens. */
    method Close() returns (err: Option<Error>)
      modifies this
      ensures entries == old(entries) && closed
      ensures old(closed) ==> terminated == old(terminated) && err.None?
      ensures !old(closed) ==> (terminated, err) == CloseStep(entries)
    {
      if closed {
        err := None;
      } else {
        var r := CloseStep(entries);
        terminated, err := r.0, r.1;
        closed := true;
      }
    }
  }

  /** An input stream: the entries it holds, then what `Next` reports after them (`None` is `io.EOF`). */
  datatype Archive = Archive(entries: seq<Entry>, end: Option<Error>)

  /**
   * `Reader.Next` when `i` headers have been handed out: the next entry, `None` at a clean end,
   * or an error: the stream's own, or `ErrUnexpectedEOF` when the previous body was cut short.
   */
  function NextAt(a: Archive, i: nat): (r: Result<Option<Entry>, Error>)
    ensures r.Ok? && r.value.Some? <==> i < |a.entries| && !(0 < i && Short(a.entries[i - 1]))
    ensures r.Ok? && r.value.Some? ==> r.value.value == a.entries[i]
    ensures r.Ok? && r.value.None? <==> i >= |a.entries| && a.end.None? && !(0 < i <= |a.entries| && Short(a.entries[i - 1]))
    ensures r.Failure? && 0 < i <= |a.entries| && Short(a.entries[i - 1]) ==> r.error == UnexpectedEof
  {
    if 0 < i <= |a.entries| && Short(a.entries[i - 1]) then Failure(UnexpectedEof)
    else if i < |a.entries| then Ok(Some(a.entries[i]))
    else if a.end.Some? then Failure(a.end.value)
    else Ok(None)
  }

  /** The body bytes a reader yields for an entry: at most the declared size, nothing for a header-only kind. */
  function Delivered(e: Entry): (r: seq<byte>)
    ensures |r| == Min(|e.body|, Owed(e.hdr)) && r == e.body[..|r|]
    ensures HeaderOnly(e.hdr.kind) ==> r == []
  {
    e.body[..Min(|e.body|, Owed(e.hdr))]
  }

  /** What reading an entry's body to its end reports: `ErrUnexpectedEOF` for a short body. */
  function BodyErr(e: Entry): (r: Option<Error>)
    ensures r.None? <==> |Delivered(e)| == Owed(e.hdr)
    ensures r.Some? ==> r.value == UnexpectedEof
    ensures HeaderOnly(e.hdr.kind) ==> r.None?
  {
    if Short(e) then Some(UnexpectedEof) else None
  }

  /** `tar.Reader` over an archive: how many headers it has handed out and whether that body was read. */
  class TarReader {
    const archive: Archive
    var pos: nat
    var drained: bool

    constructor (a: Archive)
      ensures archive == a && pos == 0 && drained
    {
      archive := a;
      pos := 0;
      drained := true;
    }

    method Next() returns (r: Result<Option<Header>, Error>)
      modifies this
      ensures var n := NextAt(archive, old(pos));
        && (n.Failure? ==> r == Failure(n.error) && pos == old(pos) && drained == old(drained))
        && (n.Ok? && n.value.None? ==> r == Ok(None) && pos == old(pos) && drained == old(drained))
        && (n.Ok? && n.value.Some? ==> r == Ok(Some(n.value.value.hdr)) && pos == old(pos) + 1 && !drained)
    {
      var n := NextAt(archive, pos);
      if n.Failure? {
        r := Failure(n.error);
      } else if n.value.None? {
        r := Ok(None);
      } else {
        r := Ok(Some(n.value.value.hdr));
        pos := pos + 1;
        drained := false;
      }
    }

    /** `io.Copy` out of the reader: the current body, once; nothing before the first header or after a read. */
    method ReadBody() returns (data: seq<byte>, err: Option<Error>)
      modifies this
      ensures pos == old(pos) && drained
      ensures old(drained) || pos == 0 || pos > |archive.entries| ==> data == [] && err.None?
      ensures !old(drained) && 0 < pos <= |archive.entries| ==>
        data == Delivered(archive.entries[pos - 1]) && err == BodyErr(archive.entries[pos - 1])
    {
      if drained || pos == 0 || pos > |archive.entries| {
        data, err := [], None;
      } else {
        var e := archive.entries[pos - 1];
        data, err := Delivered(e), BodyErr(e);
      }
      drained := true;
    }
  }
}
