# tekton-cacher core in Dafny

tekton-cacher saves and restores build caches for Tekton pipelines. This project models the two
parts of it that hold real logic, and proves properties of them.

- **Cache-key derivation** (`cache/cache.go`). `MatchPatterns` expands glob patterns and
  concatenates the matches in pattern order. `GenerateCacheKey` then does the following:
  - it returns the literal key when there are no patterns;
  - otherwise it sorts the matched paths;
  - it feeds each file's bytes, in that order and with nothing between them, to SHA-256;
  - it returns the lowercase hex digest, prefixed by `key-` when the literal key is not empty.
- **Archive packing** (`TarFiles`, `tar/tar.go:12-86`). For each root path:
  - the root is cleaned;
  - the tree under it is walked depth-first in pre-order, with children in lexical order;
  - every node is written as a tar entry: directory, regular file with its contents, or symbolic link with its target;
  - below an absolute root, entry names are made relative to that root;
  - a root whose walk fails is reported and skipped.

  The writer's `Close` error is the result. A body left short (a file that could not be opened or
  read after its header was written) poisons the writer: every later header is refused, and so is
  the close.
- **Archive extraction** (`Untar`, `tar/tar.go:88-151`). Entries are read until the end of the archive.
  - Each is placed at `Join(Abs("."), name)`. An absolute name is first made relative to "/".
  - A symbolic link gets the target `Join(".", linkname)`. Failing to create it is only a warning.
  - A directory is made with its missing ancestors at mode 0755, less the umask.
  - Anything else is created or truncated with the entry's permission bits, and its body is copied in.

Module by module:

| module | file | contents |
|---|---|---|
| `Common` | `common.dfy` | bytes, `Option`, `Result` |
| `Lex` | `lex.dfy` | Go's string order and `sort.Strings` |
| `Hex` | `hex.dfy` | `hex.EncodeToString` and its inverse |
| `Paths` | `paths.dfy` | `filepath.Clean`, `Join` and `Rel` on paths split at "/" |
| `Errors` | `errors.dfy` | the errors the core can return |
| `Fs` | `fs.dfy` | the file system as a map from clean absolute paths to nodes; the OS calls the core makes; the class `FileSystem`, updated in place |
| `TarFormat` | `tarformat.dfy` | archive entries and the header-only kinds; `tar.Writer` (class `TarWriter`) and `tar.Reader` (class `TarReader`) at the level of entries |
| `Cache` | `cache.dfy` | `cache/cache.go` |
| `Pack` | `pack.dfy` | `TarFiles` and the `filepath.Walk` it drives |
| `WalkOrder` | `walkorder.dfy` | the pre-order tour of a tree, and the proof that a walk archives it in that order |
| `Unpack` | `unpack.dfy` | `Untar` |

Each imperative function of the source is a `method` proved equal to a specification function,
or ghost function, of its inputs. The properties are stated as contracts of those functions and
as lemmas about them.

Operating-system failures the model does not derive can be injected. A `Faults` map gives, for
each call, an optional failure:
- on the packing side, calls are keyed by the path;
- on the extraction side, calls are keyed by the entry's index.

Glob expansion, reading a file for hashing, and SHA-256 are function parameters.

Some behaviour of the code is easy to miss:
- **Link targets.** The target of a symbolic link is read with `os.Readlink(relFilePath)` (`tar/tar.go:41`). That is the entry name, resolved against the working directory, not the path where the walk found the link. Below an absolute root that is not the working directory, the link is read at the same names under the working directory (`Pack.LinkReadAt`). When nothing there is a link, the walk of that root stops (`Pack.LinkQuirkExample`). When another link is there, its target is archived instead.
- **Close failures.** A failing `Close` of an extracted file makes `Untar` return `err` (`tar/tar.go:139-141`), which is nil at that point. Extraction therefore stops and reports success (`Unpack.CloseFailureReportsSuccess`).
- **Truncated bodies.** A body cut short is reported by `io.Copy` as the reader's unexpected EOF before the size check on `tar/tar.go:145` can run (`Unpack.TruncatedBodyFails`).
- **Header-only kinds.** archive/tar stores no body for directories, symbolic links, hard links, devices and FIFOs, whatever the header's size says. Hard links, devices and FIFOs go down the regular-file branch. When such a header declares a size, nothing is copied, the size check on `tar/tar.go:145-146` fails, and an empty file is left behind (`Unpack.HeaderOnlyFileMismatch`).
- **Permission bits.** They are not kept exactly:
  - directories are made at 0755 less the umask, whatever the entry says;
  - new files get the entry's bits less the umask;
  - a truncated existing file keeps its old mode.
- **Errors while streaming a file.** Such an error during packing is not returned from `TarFiles` directly; the walk only prints it. It becomes fatal because the short body makes the writer refuse every later header and the final `Close`.
- **`..` in entry names.** A name with `..` is not rejected and can land outside the working directory (`Unpack.DotDotEscapes`).

## Model

| member | source | states |
|---|---|---|
| `Cache.MatchPatterns` | cache/cache.go:46-58 | the result is the per-pattern glob results concatenated in pattern order, or the first glob error; an empty pattern list gives an empty list |
| `Cache.MatchesAppend` | cache/cache.go:48-55 | splitting the pattern list splits the result: the matches of `ps + qs` are those of `ps` followed by those of `qs`, and an error in `ps` wins over anything in `qs` |
| `Cache.FirstGlobErrorWins` | cache/cache.go:49-52 | the first malformed pattern's error is the result, whatever follows it |
| `Cache.MatchesFailedPrefix` | cache/cache.go:49-52 | once a prefix of the patterns fails, later patterns cannot change the outcome |
| `Cache.ZeroMatchPatternAddsNothing` | cache/cache.go:54 | a pattern matching no file leaves the result as if it were absent |
| `Cache.MatchesCounts` | cache/cache.go:54 | matches are not deduplicated: each path occurs as often as all the patterns together produced it |
| `Cache.MatchesOne` | cache/cache.go:49-54 | a single pattern's result is its glob result |
| `Cache.ReadAllAppend` | cache/cache.go:26-36 | the hashed bytes of a file list are the concatenation of the hashed bytes of its parts: no delimiter or length goes between files |
| `Cache.ReadAllOne` | cache/cache.go:27-35 | one file contributes exactly its contents |
| `Cache.EmptyFileContributesNothing` | cache/cache.go:33 | an empty file changes nothing in the hashed bytes |
| `Cache.FirstReadErrorWins` | cache/cache.go:27-35 | the first file that cannot be opened or read makes the whole result that error |
| `Cache.ReadErrorAt` | cache/cache.go:27-30 | an unreadable file after a readable prefix decides the result: the early return of the loop |
| `Cache.ReadAllFailsIff` | cache/cache.go:26-36 | hashing fails exactly when some listed file cannot be read |
| `Cache.SameReadAll` | cache/cache.go:26-36 | the hashed bytes depend only on the contents of the listed files |
| `Cache.ChangedFileChangesHashInput` | cache/cache.go:25-36 | changing one listed file's contents, at equal length, changes the bytes that are hashed |
| `Cache.Hasher.Write` | cache/cache.go:33 | the hash state is the bytes absorbed so far, extended by each write |
| `Cache.FormatKey` | cache/cache.go:38-42 | an empty literal gives the 64-character hex digest alone; otherwise the literal, a "-" and the digest |
| `Cache.ParseFormatKey` | cache/cache.go:38-42 | the key format is unambiguous: literal and digest can be read back from the key |
| `Cache.EmptyLiteralKeyIsHexDigest` | cache/cache.go:38-39 | with an empty literal the key is 64 lowercase hex digits |
| `Cache.GenerateCacheKey` | cache/cache.go:13-44 | the method computes `CacheKey`; with no patterns the literal key is returned unchanged, and a glob error is returned as is |
| `Cache.NoMatchesStillHashes` | cache/cache.go:14-42 | patterns that match nothing still give a digest, of no bytes, unlike an empty pattern list |
| `Cache.CacheKeyFailsIff` | cache/cache.go:22-36 | once the globs succeed, the key fails exactly when some matched file cannot be read |
| `Cache.KeyIgnoresMatchOrder` | cache/cache.go:22 | because of the sort, the key depends on the matched paths only as a multiset |
| `Cache.KeyIgnoresPatternOrder` | cache/cache.go:18-22 | swapping two groups of patterns does not change the key |
| `Lex.SortStrings` | cache/cache.go:22 | `sort.Strings` returns a sorted permutation of its input |
| `Lex.Insert` | cache/cache.go:22 | insertion into a sorted list keeps it sorted and adds exactly one element |
| `Lex.SortedUnique` | cache/cache.go:22 | two sorted permutations of each other are equal, so the sorted order is unique |
| `Lex.SortIgnoresOrder` | cache/cache.go:22 | permutations of a list sort to the same list |
| `Hex.Encode` | cache/cache.go:39 | hex encoding doubles the length and yields only lowercase hex digits |
| `Hex.DecodeEncode` | cache/cache.go:38-42 | decoding the hex encoding gives back the bytes |
| `Hex.EncodeInjective` | cache/cache.go:38-42 | distinct digests give distinct hex strings |
| `Hex.DigitRoundTrip` | cache/cache.go:39 | each nibble is encoded as one digit that decodes back to it |
| `Paths.Clean` | tar/tar.go:17 | `filepath.Clean` keeps absoluteness and leaves no empty or "." element, and no ".." except leading ones on a relative path |
| `Paths.CleanIdempotent` | tar/tar.go:17 | cleaning twice is cleaning once |
| `Paths.JoinPlain` | tar/tar.go:115 | joining plain names onto a clean directory appends them |
| `Paths.RelOfDescendant` | tar/tar.go:30-36 | `Rel(root, p)` for `p` below a clean root is the part of `p` after the root, and "." for the root itself |
| `Paths.RelFromRoot` | tar/tar.go:109-114 | `Rel("/", name)` cannot fail for an absolute name and drops the leading "/" from the cleaned name |
| `Paths.JoinDot` | tar/tar.go:118 | `Join(".", l)` is never absolute and leaves a clean relative target alone |
| `Fs.SymlinkAt` | tar/tar.go:119 | `os.Symlink` succeeds exactly when nothing is at the destination and its parent is a directory, and then adds only the link |
| `Fs.MkdirAll` | tar/tar.go:126 | on success there is a directory at the destination, and only directories at the destination or its ancestors were added |
| `Fs.MkdirAllFails` | tar/tar.go:126-128 | `MkdirAll` fails only when something other than a directory is at the destination or one of its ancestors |
| `Fs.MkdirAllSucceeds` | tar/tar.go:126-128 | conversely, `MkdirAll` succeeds when nothing but directories, or nothing at all, is on the way |
| `Fs.MkdirAllKeepsTree` | tar/tar.go:126 | directory creation keeps every node's parent a directory |
| `Fs.OpenTrunc` | tar/tar.go:133-136 | `os.OpenFile` with create and truncate succeeds on an existing file or on a missing file under a directory, and leaves an empty file there |
| `Fs.CreateKeepsTree` | tar/tar.go:119-133 | creating a node under a directory keeps the tree shape |
| `Fs.FileSystem.NewSymlink` | tar/tar.go:119 | the file system's new nodes and the call's error are those of `SymlinkAt` |
| `Fs.FileSystem.Mkdirs` | tar/tar.go:126 | the file system's new nodes and the call's error are those of `MkdirAll` at the masked mode |
| `Fs.FileSystem.Open` | tar/tar.go:133 | the file system's new nodes and the call's error are those of `OpenTrunc` |
| `Fs.FileSystem.Write` | tar/tar.go:138 | a write appends to the open file and changes nothing else |
| `TarFormat.WriteHeaderStep` | tar/tar.go:49-51 | `WriteHeader` starts a new entry with an empty body exactly when the previous body is complete, and otherwise fails with the missing byte count and changes nothing |
| `TarFormat.WriteStep` | tar/tar.go:69 | `Write` appends as many bytes as the current entry still owes, and fails exactly when given more |
| `TarFormat.CloseStep` | tar/tar.go:81-83 | `Close` terminates the archive exactly when the last body is complete, and otherwise fails with the byte count still missing |
| `TarFormat.ClosedArchiveComplete` | tar/tar.go:81-85 | a successful close means every entry's body has exactly its declared size |
| `TarFormat.ShortBodyBlocksWriter` | tar/tar.go:69-71 | a body left short makes the next header, and the close, fail |
| `TarFormat.TarWriter.WriteHeader` | tar/tar.go:49 | the writer's entries follow `WriteHeaderStep`; after `Close` a header is refused |
| `TarFormat.TarWriter.Write` | tar/tar.go:69 | the writer's entries follow `WriteStep`; after `Close` a write is refused |
| `TarFormat.TarWriter.Close` | tar/tar.go:81 | closing follows `CloseStep`; closing again does nothing |
| `TarFormat.Owed` | tar/tar.go:138 | a header is followed by as many body bytes as its size says, and by none for a header-only kind |
| `TarFormat.NextAt` | tar/tar.go:98-104 | `Next` yields the next entry exactly when the previous body was not short; it reports the end exactly at the end of an archive whose last body is not short, and otherwise fails, with the unexpected EOF after a short body |
| `TarFormat.Delivered` | tar/tar.go:138 | reading a body yields its bytes up to the declared size, and nothing for a header-only kind |
| `TarFormat.BodyErr` | tar/tar.go:138 | reading a body fails, with the unexpected EOF, exactly when fewer bytes than it owes are there; a header-only entry never fails |
| `TarFormat.TarReader.Next` | tar/tar.go:98 | the reader's answer and position follow `NextAt` |
| `TarFormat.TarReader.ReadBody` | tar/tar.go:138 | the current entry's body is `Delivered` with error `BodyErr` the first time it is read, and empty afterwards or before any header |
| `Pack.LstatAt` | tar/tar.go:76 | the walk's `lstat` yields the node at the key unless it is missing or the call fails |
| `Pack.ReadLink` | tar/tar.go:41-44 | `os.Readlink` succeeds exactly on a symbolic link at the resolved name, giving its target |
| `Pack.ChildNames` | tar/tar.go:76 | a directory's children are listed exactly, without repeats, in lexical order |
| `Pack.ReadDirNames` | tar/tar.go:76 | the method lists exactly `ChildNames` |
| `Pack.CopyOut` | tar/tar.go:62-72 | copying a file's bytes changes only the last entry's body, and keeps complete bodies complete |
| `Pack.Visit` | tar/tar.go:19-74 | the walk callback adds at most one entry. On success it adds exactly one, named by its relative name. An unreadable link or a poisoned writer adds nothing and returns an error. Complete bodies stay complete |
| `Pack.VisitContent` | tar/tar.go:40-72 | a successful visit adds exactly the entry with the node's header (kind, mode, size, link target read at the entry name) and the file's whole contents as body |
| `Pack.Walker` | tar/tar.go:19-74 | the method's new entries and error are those of `Visit` |
| `Pack.WalkNode` | tar/tar.go:76 | a node's walk only appends, puts the node's own entry first, and writes nothing once the writer is poisoned; what it covers, and in what order, is `WalkOrder.WalkNodeOrder` |
| `Pack.WalkNames` | tar/tar.go:76 | walking a directory's children in order only appends, and keeps complete bodies complete; order and coverage in `WalkOrder.WalkNamesOrder` |
| `Pack.WalkRoot` | tar/tar.go:76 | a root's walk only appends, and writes nothing once the writer is poisoned; order and coverage in `WalkOrder.WalkRootOrder` |
| `Pack.WalkDir` | tar/tar.go:76 | the method's new entries and error are those of `WalkNode` |
| `Pack.WalkChildren` | tar/tar.go:76 | the method's new entries and error are those of `WalkNames` |
| `Pack.Walk` | tar/tar.go:76 | the method's new entries and error are those of `WalkRoot` |
| `Pack.EntryNameBelow` | tar/tar.go:30-38 | below an absolute root the name is the path after the root; below a relative root it is the walked path itself |
| `Pack.RootNamedDot` | tar/tar.go:31-36 | the first entry of an absolute root is named "." |
| `Pack.VisitNamed` | tar/tar.go:30-38 | a visit names its entry as `EntryNameBelow` says |
| `Pack.WalkNodeNamed` | tar/tar.go:30-38 | every entry a node's walk writes is relative below an absolute root, or below the root itself for a relative one |
| `Pack.WalkNamesNamed` | tar/tar.go:30-38 | the same for the walk of a directory's children |
| `Pack.WalkRootNamed` | tar/tar.go:30-38 | the same for a whole root |
| `Pack.LinkReadAt` | tar/tar.go:40-47 | below a relative root a link is read where the walk found it; below an absolute root it is read at the same names under the working directory |
| `Pack.LinkQuirkExample` | tar/tar.go:41-44 | a link "/r/l" walked from working directory "/" is read as "l", fails with ENOENT, and writes no entry |
| `Pack.TarLoop` | tar/tar.go:15-79 | the loop over the roots only appends, keeps complete bodies complete, and writes nothing once poisoned |
| `Pack.TarSpec` | tar/tar.go:12-86 | the result is nil exactly when the archive is terminated, and then every entry is complete; otherwise the error is the close's missed-writing error; which names the archive holds is `WalkOrder.PackedInTourOrder` |
| `Pack.MissingRootSkipped` | tar/tar.go:76-78 | a root that cannot be `lstat`ed contributes nothing: the archive is as if it were not listed |
| `Pack.TarLoopSuffix` | tar/tar.go:15-79 | the rest of the loop depends only on the roots still to come |
| `Pack.TarLoopSameCleaned` | tar/tar.go:17 | roots that clean to the same paths give the same archive |
| `Pack.RootsCleanedFirst` | tar/tar.go:17 | `TarFiles` on the roots equals `TarFiles` on the cleaned roots |
| `Pack.TarFiles` | tar/tar.go:12-86 | the method's archive and error are `TarSpec` of the roots, file system and faults |
| `WalkOrder.Tour` | tar/tar.go:76 | a node's tour starts with the node itself |
| `WalkOrder.TourComplete` | tar/tar.go:76 | in a tree with plain names, the tour of a directory reaches every node below it |
| `WalkOrder.WalkNodeOrder` | tar/tar.go:19-76 | a node's walk that returns no error wrote exactly one entry per node of its tour, in tour order, named as `EntryNameBelow` says |
| `WalkOrder.WalkNamesOrder` | tar/tar.go:19-76 | the same for the walk of a directory's children: their tours one after the other |
| `WalkOrder.WalkRootOrder` | tar/tar.go:17-76 | a root's walk that returns no error found the root and wrote its whole tour in order |
| `WalkOrder.LinkReadInPlace` | tar/tar.go:30-41 | below a relative root, or below the working directory itself, a link is read where the walk found it |
| `WalkOrder.VisitSucceeds` | tar/tar.go:19-74 | with no failing call, links read in place and the previous body complete, the callback succeeds and leaves its entry complete |
| `WalkOrder.WalkNodeSucceeds` | tar/tar.go:19-76 | under the same conditions a node's walk succeeds and leaves every body complete |
| `WalkOrder.WalkNamesSucceeds` | tar/tar.go:19-76 | the same for the walk of a directory's children |
| `WalkOrder.WalkRootSucceeds` | tar/tar.go:17-76 | a root that exists is archived without error under the same conditions |
| `WalkOrder.TarLoopOrder` | tar/tar.go:15-79 | the loop over roots that all exist, with no failing call, writes each root's tour in turn and leaves the writer complete |
| `WalkOrder.PackedInTourOrder` | tar/tar.go:12-86 | `TarFiles` over such roots returns nil, terminates the archive, and names its entries by the roots' tours, root after root |
| `Unpack.Written` | tar/tar.go:138 | the bytes copied into the file are a prefix of the delivered body |
| `Unpack.CopyErr` | tar/tar.go:138-144 | the copy fails exactly when fewer bytes than the body owes were written |
| `Unpack.DestNeverFails` | tar/tar.go:109-114 | every entry name has a destination: `Rel("/", name)` never fails |
| `Unpack.DestOfAbsolute` | tar/tar.go:109-115 | an absolute name lands at its cleaned elements below the working directory |
| `Unpack.DestUnderCwd` | tar/tar.go:108-115 | absolute names, and relative names without "..", land inside the working directory |
| `Unpack.DotDotEscapes` | tar/tar.go:108-115 | "../../etc/passwd" extracted in "/home/u" lands at "/etc/passwd" |
| `Unpack.NameRoundTrip` | tar/tar.go:30-115 | an entry packed below an absolute root is extracted at the same names below the working directory; below a relative root, in the same working directory, in the same place |
| `Unpack.StepConfined` | tar/tar.go:106-147 | an entry removes nothing, and adds or changes only its destination and the destination's ancestors |
| `Unpack.SymlinkStep` | tar/tar.go:117-123 | a link entry never stops extraction; it adds at most the link, whose target `Join(".", linkname)` is never absolute, and does add it when the destination is free |
| `Unpack.DirectoryStep` | tar/tar.go:125-130 | a directory entry goes on exactly when `MkdirAll` at 0755 less the umask succeeds, stops with its error otherwise, and is idempotent |
| `Unpack.RegularFileStep` | tar/tar.go:132-147 | a complete file entry whose calls succeed leaves exactly a file holding its body, with the entry's bits less the umask when new, or the old mode when truncated |
| `Unpack.TruncatedBodyFails` | tar/tar.go:138-144 | a body shorter than it should be stops extraction with an error (the unexpected EOF when the writes succeed), leaving the prefix written |
| `Unpack.HeaderOnlyFileMismatch` | tar/tar.go:132-147 | a hard link, device or FIFO entry with a declared size stops extraction at the size check with "wrote 0", leaving an empty file |
| `Unpack.EntryRoundTrip` | tar/tar.go:30-147 | the entry packed for a node, extracted at a free place under a directory with no failing call, recreates it: the file with its bytes and bits less the umask, the directory, or the link to the target read; a clean relative link target below a relative root comes back unchanged |
| `Unpack.FileOverDirectory` | tar/tar.go:133-136 | a file entry whose destination is a directory stops with EISDIR and changes nothing |
| `Unpack.CloseFailureReportsSuccess` | tar/tar.go:139-141 | a failing close of an extracted file ends extraction with a nil error |
| `Unpack.StepKeepsTree` | tar/tar.go:106-147 | one entry keeps every node's parent a directory |
| `Unpack.UntarKeepsTree` | tar/tar.go:96-148 | the whole extraction keeps every node's parent a directory |
| `Unpack.SymlinksNeverStop` | tar/tar.go:97-123 | an archive of link entries is extracted to its end whatever fails, and the result is the reader's end-of-archive result |
| `Unpack.Untar` | tar/tar.go:88-151 | the method's new file system and error are `UntarSpec` of the archive, the old file system and the faults |
| `Unpack.Extract` | tar/tar.go:106-147 | one pass of the loop body changes the file system as `Step` says, and stops exactly when `Step` does |
| `Unpack.ExtractFile` | tar/tar.go:132-147 | the regular-file branch changes the file system as `WriteFile` says, and stops exactly when it does |

## Left out

- The `gcs` and `cmd` packages (object-store transfer, gzip, flag parsing, result files) are not part of this model.
- SHA-256 is an uninterpreted function parameter. For that reason `Cache.ChangedFileChangesHashInput` states only that the hashed bytes differ, not the digests.
- Glob syntax is not modelled: `filepath.Glob` is a function parameter, and so are its matches and its `ErrBadPattern`.
- Reading a file for hashing (`os.Open` then `io.Copy`) is one function parameter returning the contents or the first error.
- The tar byte format (512-byte blocks, PAX records, padding) is left out; the writer and reader work on whole entries.
- Errors of the underlying `io.Writer` while packing are left out, as is parsing a corrupt stream while extracting. The latter is the archive's `end` error.
- Modification times, owners and `FileInfoHeader`'s other fields are left out.
- Paths are given already split at "/".
- File-system lookups are lexical: a symbolic link in a leading directory of a path, in a root or in the working directory is not followed.
- `MkdirAll` on a symbolic link to a directory is reported as ENOTDIR. Opening an existing symbolic link for writing is reported as ELOOP instead of following it.
- Named pipes, devices and sockets are not part of the file system, so `FileInfoHeader`'s error (`tar/tar.go:25-28`) cannot happen in the model.
- The setuid, setgid and sticky bits are not modelled; modes are the nine permission bits.
- `filepath.Walk`'s `SkipDir` is left out, because the callback never returns it.
- Console output (`cache/cache.go:23`, `tar/tar.go:77`, `tar/tar.go:120`) is not modelled.
- Reading and writing file handles whose lifetime ends with a deferred `Close` (`cache/cache.go:31`, `tar/tar.go:67`) are modelled as single calls, and the close itself as infallible.
- `Unpack.DirectoryStep`: an injected `MkdirAll` fault happens before any directory is made. A partially completed `MkdirAll` is not modelled.
- A file changing between the walk's `lstat` and its read is not modelled. The bytes copied are those seen by `lstat`, so the writer's too-long error is unreachable while packing.
- Bytes stored after the header of a header-only entry are not modelled. archive/tar would read them as the next header; the model's reader ignores such a body.
- Extraction tells kinds apart by the type flag, not by the type bits of the header's mode.
- `Untar` reads an `Archive` value, a list of entries plus how the stream ends, instead of bytes from an `io.Reader`.
- `Unpack.NameRoundTrip` proves names only. `Unpack.EntryRoundTrip` adds contents and link targets, per entry and for a free destination under a directory. The round trip is not proved for a whole tree.
- `WalkOrder.WalkRootSucceeds`: success is proved only with no failing call, and for roots that are relative or the working directory itself. Below any other absolute root, whether a link can be read depends on what lies under the working directory (`Pack.LinkReadAt`).
- `sort.Strings` sorts a local slice in place. It is modelled as a pure function, since nothing else holds that slice.
