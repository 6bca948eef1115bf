/** The errors the core produces or passes on. */
module Errors {
  import opened Paths

  /** The `syscall.Errno` values the model derives from the state of the file system. */
  datatype Errno = ENOENT | EEXIST | ENOTDIR | EISDIR | EINVAL | ELOOP

  datatype Error =
    /** `*fs.PathError`: operation, absolute path, errno. */
    | PathError(op: string, path: seq<string>, errno: Errno)
    /** `filepath.ErrBadPattern`. */
    | BadPattern(pattern: string)
    /** `filepath.Rel` could not relate the two paths. */
    | CantMakeRelative(base: Path, targ: Path)
    /** "error reading link: %w" (tar/tar.go:43). */
    | ReadingLink(cause: Error)
    /** "error writing header: %w" (tar/tar.go:50). */
    | WritingHeader(cause: Error)
    /** "can't open %s: %w" (tar/tar.go:65). */
    | CantOpen(file: Path, cause: Error)
    /** "can't copy %s to tar writer: %w" (tar/tar.go:71). */
    | CantCopy(file: Path, cause: Error)
    /** archive/tar: a header or the end marker was written while part of the previous body was missing. */
    | MissedWriting(remaining: nat)
    /** `tar.ErrWriteAfterClose`: the writer was already closed. */
    | WriteAfterClose
    /** `tar.ErrWriteTooLong`: more body bytes than the header declared. */
    | WriteTooLong
    /** `io.ErrUnexpectedEOF`: the stream ended inside an entry's body. */
    | UnexpectedEof
    /** "unexpected bytes written: wrote %d, want %d" (tar/tar.go:146). */
    | UnexpectedBytesWritten(wrote: nat, want: nat)
}
