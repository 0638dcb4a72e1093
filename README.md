# dit decision logic in Dafny

`dit` copies a directory tree from N read roots to M write roots. It hashes files that
appear under several read roots. When copies disagree, it writes them side by side under
`<stem>.__<TYPE>__<hash>.<ext>` conflict names. This project models the sequential
decision logic under the tool's threads and channels:

- **Discovery** (`discover.rs`). The walk lists every read root in lock-step, sub path by
  sub path. It goes over the sorted union of the non-hidden names and classifies each name
  as a file or a directory. For each file it emits nothing, a copy-to-dest frame or a hash
  frame. The three channels become one output sequence of `Sent` messages, in send order.
- **Merge decisions** (`threads.rs`). This covers the `Ok < Conflict < Error` ratchet and
  the conflict file name. It also covers `handle_hash_merge`, where hash results are
  grouped by digest and the first root wins, and `handle_copy_to_dest`. Last comes the
  skip-if-exists rule of `handle_copy`. Channel receives become input values
  (`Recv<T>`). Copy requests sent to write root `i` become `Dispatch(i, request)` values
  in send order.
- **Size predicates and root validation** (`common.rs`). These are
  `has_write_merge_conflict`, `all_files_match` and `ensure_valid_read_write_paths`. They
  run over a value-level filesystem. Each `exists` probe and each `metadata` probe is
  separate. A path can exist while its `metadata` fails (`statFails`), but `metadata`
  never succeeds on a path that does not exist.
- **Command-line parser** (`api.rs`, `get_cli_read_write_paths`). This is the two-keyword
  mode machine with trailing-slash stripping.

The filesystem is a map from path strings to `Dir(size, entries) | File(size, content) |
Special(size)`. It also carries sets of paths whose `metadata`, directory listing or
`mkdir` fails. Paths are literal strings. `Join` is `PathBuf::push`, and an absolute
argument replaces the base.

Each imperative routine is a method with loops. Its contract ties the method to a
specification function, and lemmas state the source's promises about that function:

| method | specification |
|---|---|
| `Discover.DiscoverFiles`, `DiscoverDir`, `DiscoverName` | `PlanDiscovery`, `PlanDir`, `PlanName` |
| `Threads.HandleHashMerge` | `HashMergePlan` |
| `Common.AllFilesMatch` | `AllFilesMatchSpec` |
| `Common.EnsureValidReadWritePaths` | `FirstReadPathError`, `PrepareWritePaths` |
| `Api.GetCliReadWritePaths` | `Routed` |

## Model

| member | source | states |
|---|---|---|
| Threads.MaxMergeResult | src/threads.rs:668-678 | the result's severity is the larger of the two severities (Ok < Conflict < Error), and the result is one of the two arguments |
| Threads.MaxMergeResultAlgebra | src/threads.rs:668-678 | the ratchet is commutative, idempotent and associative; Ok is neutral and Error absorbs |
| Threads.AccumulateIsWorst | src/threads.rs:145 | the result folded over a merge loop is at least as severe as every result seen, and is Ok or one of them |
| Threads.AccumulateNeverDecreases | src/threads.rs:145 | the accumulated result of any prefix of the loop is no more severe than that of the whole loop: it never goes down |
| Threads.ConflictFileNameLayout | src/threads.rs:303-357 | the conflict name is `stem + "." + "__" + type + "__" + hash`, followed by `"." + ext` exactly when the source name has an extension |
| Threads.ConflictFileNameKeepsExtension | src/threads.rs:331-357 | when the source file has an extension, and neither the type nor the hash contains a dot, the conflict name's extension is the source file's extension, so it stays the final suffix |
| Threads.ConflictFileNameGainsExtension | src/threads.rs:331-357 | when the source file has no extension, the conflict name gains one: under the same dot-free condition, its extension is the tag `__<TYPE>__<hash>` |
| Threads.ConflictFileNameIsNew | src/threads.rs:331-357 | the conflict name is longer than the plain file name, so it is never equal to it |
| Threads.ConflictFileNameInjective | src/threads.rs:338-343 | for one source and one conflict type, distinct hashes give distinct conflict names |
| Threads.ConflictFileNameRelative | src/threads.rs:331-357 | the conflict name is non-empty and relative, so pushing it never replaces the directory |
| Threads.ConflictDestPathInjective | src/threads.rs:359-365 | under one write root and sub path, sources with the same file name and distinct hashes get distinct conflict paths |
| Threads.ConflictFileName | src/threads.rs:303-357 | with a type and hash free of '/', the conflict name is a single path component |
| Threads.ConflictDestPath | src/threads.rs:296-367 | with a type and hash free of '/', the conflict path's last component is the conflict name |
| Threads.WriteDest | src/threads.rs:431-475 | for a copy that discovery found (its file name is the sub path's last segment), the destination is the plain `write_path/sub_path` exactly when there is no write conflict |
| Threads.ConflictDestBesidePlain | src/threads.rs:307-365 | the conflict path is the write root, then the sub path's directory part, then the conflict name: it lands in the same directory as the plain destination |
| Threads.ConflictDestDiffersFromPlain | src/threads.rs:331-365 | for a sub path whose last segment is the source's file name, the conflict path differs from `write_path/sub_path` |
| Threads.ParentOfSubPath | src/threads.rs:307-313 | the parent of a sub path is empty exactly at top level; otherwise it is the directory part without its trailing '/' |
| Threads.DirPart | src/threads.rs:307-313 | the directory part followed by the last segment gives back the path |
| Threads.FirstByHash | src/threads.rs:381-394 | the map keys are exactly the digests received, and every entry is stored under its own digest |
| Threads.FirstByHashEarliestWins | src/threads.rs:389-391 | for duplicate digests, the entry kept is the one from the earliest read-root channel |
| Threads.CollectByHash | src/threads.rs:384-404 | the receive loop is complete iff every channel delivered; the map is then the first-wins grouping, and its keys are listed in ascending order |
| Threads.HandleHashMerge | src/threads.rs:372-555 | the result and the copy requests sent are those of the merge plan |
| Threads.HashMergeErrorCases | src/threads.rs:396-411 | the result is Error iff a receive failed or no channel delivered a hash result, and an Error sends nothing |
| Threads.HashMergeSingleDigest | src/threads.rs:412-499 | with one digest, the first result's source goes to every write root, one request per root channel `i`; the destination is `write_path/sub_path`, or a WRITE_MERGE_CONFLICT name when the conflict flag (computed once) is set; the result is Conflict iff that flag is set; nothing is sent unless clean |
| Threads.SendToWriteRoots | src/threads.rs:426-492 | when clean, one request per write root in order, with the plain or conflict destination; nothing otherwise |
| Threads.HashMergeManyDigests | src/threads.rs:500-555 | with several digests, the result is Conflict and \|write_paths\| × \|digests\| requests are sent; the digests come in ascending order and are exactly the map's values |
| Threads.ReadConflictLayout | src/threads.rs:508-550 | request number `i * n + j` goes to write root `i`, copying digest `j`'s source to its READ_MERGE_CONFLICT path |
| Threads.SendReadConflicts | src/threads.rs:508-550 | the loop sends the read-conflict requests, one row per write root and digests in ascending order |
| Threads.SendReadConflictRow | src/threads.rs:508-550 | the inner loop sends, on write root `i`'s channel, one READ_MERGE_CONFLICT copy per digest in ascending order |
| Threads.ReadConflictRowDistinct | src/threads.rs:508-550 | within one write root's row, the READ_MERGE_CONFLICT destinations are pairwise distinct |
| Threads.KeysAreSortedList | src/threads.rs:381 | a strictly ascending list of exactly the map's keys is the BTreeMap's key order |
| Threads.EntriesAscending | src/threads.rs:506-508 | the map's entries are iterated in strictly ascending digest order, and they are exactly its values |
| Threads.HandleCopyToDest | src/threads.rs:561-657 | a failed receive gives Error and sends nothing; otherwise the result is Ok, even on a write conflict; when clean, one request per write root goes out, renamed to WRITE_MERGE_CONFLICT when the flag is set, root `i`'s name carrying the hash computed for that root |
| Threads.HandleCopy | src/threads.rs:683-702 | an existing destination leaves the filesystem untouched; an empty or root destination (no parent), or a source that is not a file, does too; otherwise the source file is placed at the destination and nothing else changes |
| Threads.HandleCopyIdempotent | src/threads.rs:688-693 | handling the same copy request twice has the effect of handling it once |
| Threads.FanOut | src/threads.rs:426-492 | one dispatch per write root, with one on-disk hash per root |
| Common.HasWriteMergeConflict | src/common.rs:194-231 | true iff the source's metadata is unreadable, or some write root has an existing destination whose metadata is unreadable or whose size differs |
| Common.MissingDestinationsNeverConflict | src/common.rs:205 | when no write root has the destination, and the source's metadata is readable, there is no conflict |
| Common.SameSizeDifferentContentIsNoConflict | src/common.rs:199-212 | only sizes are compared: replacing any file's content with other content of the same size never changes whether there is a conflict |
| Common.AllFilesMatch | src/common.rs:237-297 | true iff all existing read copies have readable metadata and one common size, and every write root holds the file with exactly that size (a missing destination gives false); requires some read copy, whose absence is a panic |
| Common.CommonReadSize | src/common.rs:242-271 | the read loop finds a size exactly when every existing read copy has readable metadata of that size, which is the first existing copy's size; an unreadable copy or a second size means no common size exists |
| Common.NoCommonReadSize | src/common.rs:249-264 | an existing read copy with unreadable metadata, or two existing read copies of different sizes, rule out every common size |
| Common.WriteCopiesMatch | src/common.rs:273-293 | the write loop succeeds iff every write copy exists and its metadata gives exactly the read size |
| Common.CommonSizeIs | src/common.rs:237-297 | once the first existing read copy fixes the size, all copies match iff every write copy has that size, and then every write copy exists |
| Common.ReadPathError | src/common.rs:133-156 | a read root is accepted iff it is not "/" and is a directory; otherwise the root, missing or not-a-directory error is given, in that order |
| Common.ReadPathsValid | src/common.rs:133-156 | no read error iff every read root is not "/" and is a directory |
| Common.FirstReadPathErrorStops | src/common.rs:133-156 | the first failing read root decides the error; later roots are not looked at |
| Common.EnsureValidReadWritePaths | src/common.rs:129-186 | a read error returns before the filesystem is touched; otherwise the new filesystem and error are those of preparing the write roots in order |
| Common.PrepareWritePathsStops | src/common.rs:158-183 | the first failing write root stops the loop, and later roots are not prepared |
| Common.PrepareWritePathsEffect | src/common.rs:158-185 | preparing keeps every existing node unchanged; it adds only empty directories at write roots that were missing; on success every write root is a directory other than "/" |
| Common.PrepareWritePathEffect | src/common.rs:159-183 | one write root: existing nodes stay unchanged, only an empty directory at that root can be added, every directory stays a directory, and on success the root is a directory other than "/" |
| Discover.DiscoverFiles | src/discover.rs:24-57 | the messages sent and the error are those of the discovery plan; when the run has stopped, nothing is sent and the result is Ok |
| Discover.DiscoverDir | src/discover.rs:44-268 | one directory level sends what the plan for that sub path sends, and stops with the same error |
| Discover.ListRoots | src/discover.rs:59-108 | the per-root name sets are the listings of every read root, with the first failing listing as the error; the union comes out in ascending order |
| Discover.ListRoot | src/discover.rs:68-107 | a root without the directory lists nothing; a failing listing is ReadDirFailed; otherwise exactly the names not starting with '.' join both the root's set and the union |
| Discover.UnionOfSnoc | src/discover.rs:99 | the union grows by exactly one root's names |
| Discover.DiscoverNames | src/discover.rs:110-265 | the names are handled in order, stopping at the first error, as the plan says |
| Discover.DiscoverName | src/discover.rs:112-265 | one name is handled as the plan says: an error if it is both a file and a directory or neither; no requests if all copies match; a hash frame if several roots have the file; a copy frame for a single root; recursion for a directory |
| Discover.ClassifyName | src/discover.rs:128-160 | the placeholder vector has one entry per read root, Some(full path) exactly where the name is a file; the count is the number of files; is_dir holds iff some root has a directory |
| Discover.ProbeRoot | src/discover.rs:134-152 | the three probes (`exists`, then `is_dir`, then `is_file`) of one root's copy give the kind of the name there: absent when unlisted or missing, a directory, a file, or absent for anything else |
| Discover.Placeholders | src/discover.rs:129-160 | one entry per read root, Some exactly where the name is a file, holding that root's copy path |
| Discover.SendHashRequests | src/discover.rs:191-223 | one message to each read root's hash queue in index order (Some request or None), then one Merge transfer |
| Discover.SendCopyRequest | src/discover.rs:224-247 | one copy-to-dest request for the first root holding the file, then one Copy transfer |
| Discover.FirstSomeAt | src/discover.rs:225-246 | the entry the loop stops at is the first file found |
| Discover.ChildSubPath | src/discover.rs:119-126 | the child sub path is longer than the parent sub path |
| Discover.ChildIsSubPath | src/discover.rs:93-126 | a visible name at top level or below a sub path gives a sub path with no hidden or empty component |
| Discover.Visible | src/discover.rs:93-96 | every kept name is a visible name: non-empty, not starting with '.', without '/'. ChildIsSubPath and PlanDiscoveryShape build on this, so no message ever names a hidden sub path |
| Discover.SortedNamesVisible | src/discover.rs:93-111 | every name of the ascending union is a visible entry name |
| Discover.PlanDiscoveryShape | src/discover.rs:93-247 | everything discovery sends comes in whole frames. A frame is a copy-to-dest request then Copy, or one message per hash queue in index order then Merge. Every request names a sub path with no hidden component, and the copy of that sub path under the right read root (root `i` for hash queue `i`) |
| Discover.PlanDirShape | src/discover.rs:44-268 | the same for the walk below any sub path |
| Discover.FramedAppend | src/discover.rs:110-265 | whole frames followed by whole frames are whole frames |
| Discover.CountSome | src/discover.rs:130-150 | the number of files found is at most the number of roots, and it is zero iff no entry is Some |
| Discover.FirstSome | src/discover.rs:224-247 | the value returned is the first Some entry |
| Discover.ListingsStop | src/discover.rs:87 | the first failing listing is the walk's error |
| Api.GetCliReadWritePaths | src/api.rs:27-78 | an empty read list is NoReadPath, checked first; then an empty write list is NoWritePath; otherwise both routed lists are returned, so both are non-empty |
| Api.Strip | src/api.rs:46-54 | "/" passes unchanged; otherwise exactly one trailing '/' is removed, and an argument without one is unchanged |
| Api.ModeAfter | src/api.rs:35-44 | no list is selected iff no keyword has been seen |
| Api.EveryArgumentCounted | src/api.rs:34-65 | every argument is a keyword or lands in exactly one of the read list, the write list or the dropped arguments |
| Api.RoutedPrefix | src/api.rs:57-64 | later arguments only append to the lists |
| Api.ArgumentPosition | src/api.rs:57-64 | each routed argument sits, stripped, right after the arguments routed before it: lists keep argument order |
| Api.LeadingArgumentsDropped | src/api.rs:31-45 | arguments before the first keyword are in neither list |
| Api.KeywordWithSlashIsAPath | src/api.rs:35-54 | the keyword test comes before stripping: "read/" is recorded as a read path named "read" |
| Api.StripRemovesOneSlash | src/api.rs:46-54 | only one trailing slash is removed ("a//" becomes "a/") |
| Paths.JoinKeepsParts | src/common.rs:202-203 | `PathBuf::push` of a path ends with the pushed path and, for a relative one, starts with the base |
| Paths.SplitAtDotRoundTrip | src/threads.rs:322-333 | the stem, then "." and the extension, give back the file name; the extension holds no '.' |
| Paths.FileNameOfJoin | src/threads.rs:322-333 | the file name of `root` joined with a sub path is the sub path's last segment |
| Paths.Parent | src/threads.rs:307-313 | a non-empty path has a parent; a non-empty parent, '/', and the last segment rebuild the path |
| Paths.LastSegmentOfSubPath | src/discover.rs:93-96 | a sub path's last segment is not empty and not hidden |
| Ordering.InsertSorted | src/discover.rs:99 | inserting into the BTreeSet keeps the list strictly ascending, and adds the name only when it is new |
| Ordering.SortedList | src/discover.rs:111 | a BTreeSet's iteration order is strictly ascending and holds exactly its elements |
| Ordering.SortedUnique | src/discover.rs:111 | two strictly ascending lists with the same elements are equal |
| Ordering.LessTotal | src/discover.rs:111 | byte-wise string order is total |
| Ordering.LessTransitive | src/discover.rs:111 | byte-wise string order is transitive |
| FileSystem.Mkdir | src/common.rs:176 | a successful non-recursive mkdir needed a missing path; it adds exactly one empty directory at that path |

## Left out

- Thread bodies (`discover`, `hash`, `merge`, `copy`), the channels, `recv_timeout`, the
  atomic run context and `api::copy`. Their point is concurrency. `is_running` and
  `is_clean` are plain boolean inputs, fixed for one call. A shutdown in the middle of
  a walk or a merge is not modelled.
- Channel send failures are not modelled: every send is assumed to succeed. The
  `return MergeResult::Error` and `?` paths after a failed send are therefore absent.
- Discover.DiscoverFiles: `is_running` is read once. The source also reads it at the start
  of every recursive call (src/discover.rs:55), before each
  hash message, before the Merge marker and before each copy frame. With a fixed flag,
  those later reads change nothing.
- SHA-256 and everything in `fsutil.rs` (`sendfile`, `mkstemp`, `utimensat`, `chmod`,
  `rename`) are left out. A received hash is a string input. On a write conflict,
  `handle_copy_to_dest` hashes the source again for every write root. Those results are
  an input `diskHashes: seq<Option<string>>` with one entry per write root, so two roots
  may get different names. A failed hash (`None`) gives an empty hash segment.
- Threads.HandleCopy: only the skip-if-destination-exists rule and the no-parent check
  are modelled, with the copy reduced to placing the source node at the destination.
  The unclean shutdown that a destination without a parent triggers is not returned.
  The `mkdir -p` of the parent, the temporary file, metadata copying, `chmod` and the
  atomic rename are I/O.
- Message texts of errors and logs are left out. An error is a `DitError` constructor
  naming its case.
- Paths are literal strings. Rust's `Path` normalisation (repeated '/', "." components,
  trailing '/') is not modelled. Paths.Parent and Paths.FileName take the text before
  and after the last '/'. That matches Rust's `parent` and `file_name` for the paths they
  are applied to: a sub path, or a read root joined with a sub path (the source paths in
  conflict names). For the latter, Paths.FileNameOfJoin shows that the file name is the
  sub path's last segment.
- Names and paths are Dafny strings, so they are always valid text. The panics of
  `to_str().unwrap()` on names that are not UTF-8 (src/discover.rs:91,
  src/threads.rs:332, src/threads.rs:356, src/threads.rs:366) cannot occur in the model.
- Discovery terminates because a directory found under a read root has a path inside the
  finite filesystem map. Symlink loops cannot occur in this filesystem model.
- Directory listing failures are all-or-nothing per directory. A failure of one entry
  partway through `read_dir` is modelled as failing the whole listing.
- `main.rs` and `lib.rs` (exit codes, re-exports) and `message.rs` are left out; the
  message records are mirrored as datatypes only.
- `ReadWritePaths` holds `PathBuf`s in the source and strings here.
