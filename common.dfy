/**
 * Shared values and the filesystem checks of `common.rs`: the merge result, the program's
 * errors, the write-conflict and already-in-sync tests (sizes only), and the validation of
 * the read and write roots.
 */
module Common {
  import opened Options
  import opened Paths
  import opened FileSystem

  /** The outcome of handling one transfer, ordered Ok < Conflict < Error. */
  datatype MergeResult = Ok | Conflict | Error

  /** The errors the program reports; the message text is not modelled. */
  datatype DitError =
    | NoReadPath
    | NoWritePath
    | RootAsReadPath
    | ReadPathMissing(path: string)
    | ReadPathNotDir(path: string)
    | RootAsWritePath
    | WritePathNotDir(path: string)
    | MkdirFailed(path: string)
    | ReadDirFailed(path: string)
    | FileAndDir(subPath: string)
    | NotFileOrDir(subPath: string)

  datatype Result<T> = Success(value: T) | Failure(error: DitError)

  datatype ReadWritePaths = ReadWritePaths(readPaths: seq<string>, writePaths: seq<string>)

  // ---------------------------------------------------------------------------
  // has_write_merge_conflict

  /** An existing destination counts against a source of `size` when its size differs or cannot be read. */
  predicate DestDiffers(fs: Fs, dest: string, size: nat)
  {
    Exists(fs, dest) && SizeOf(fs, dest) != Some(size)
  }

  /**
   * A write merge conflict: the source's metadata cannot be read, or some write root
   * already holds something at the sub path that differs from it in size.
   */
  predicate WriteMergeConflict(fs: Fs, writePaths: seq<string>, srcPath: string, subPath: string)
  {
    || SizeOf(fs, srcPath).None?
    || exists k :: 0 <= k < |writePaths| && DestDiffers(fs, Join(writePaths[k], subPath), SizeOf(fs, srcPath).value)
  }

  method HasWriteMergeConflict(fs: Fs, writePaths: seq<string>, srcPath: string, subPath: string) returns (conflict: bool)
    ensures conflict <==> WriteMergeConflict(fs, writePaths, srcPath, subPath)
  {
    var srcSize := SizeOf(fs, srcPath);
    if srcSize.None? {
      // the source's metadata cannot be read: assume the worst
      return true;
    }
    for k := 0 to |writePaths|
      invariant forall j :: 0 <= j < k ==> !DestDiffers(fs, Join(writePaths[j], subPath), srcSize.value)
    {
      var destPath := Join(writePaths[k], subPath);
      if Exists(fs, destPath) {
        var destSize := SizeOf(fs, destPath);
        if destSize.None? || destSize.value != srcSize.value {
          return true;
        }
      }
    }
    return false;
  }

  /** Destinations that do not exist never make a conflict. */
  lemma MissingDestinationsNeverConflict(fs: Fs, writePaths: seq<string>, srcPath: string, subPath: string)
    requires SizeOf(fs, srcPath).Some?
    requires forall k :: 0 <= k < |writePaths| ==> !Exists(fs, Join(writePaths[k], subPath))
    ensures !WriteMergeConflict(fs, writePaths, srcPath, subPath)
  {
  }

  /**
   * Only sizes are compared: replacing the content of any file by other content of the
   * same size never changes whether there is a conflict.
   */
  lemma SameSizeDifferentContentIsNoConflict(fs: Fs, writePaths: seq<string>, srcPath: string, subPath: string,
                                             d: string, n: nat, c1: seq<bv8>, c2: seq<bv8>)
    ensures WriteMergeConflict(fs.(nodes := fs.nodes[d := File(n, c1)]), writePaths, srcPath, subPath)
        == WriteMergeConflict(fs.(nodes := fs.nodes[d := File(n, c2)]), writePaths, srcPath, subPath)
  {
  }

  // ---------------------------------------------------------------------------
  // all_files_match

  /** Where a sub path lies under each root, as `PathBuf::push` builds it. */
  function CopyPaths(roots: seq<string>, subPath: string): (r: seq<string>)
    ensures |r| == |roots|
  {
    seq(|roots|, i requires 0 <= i < |roots| => Join(roots[i], subPath))
  }

  /** Every read copy that exists has readable metadata giving `size`. */
  predicate ReadCopiesHaveSize(fs: Fs, readCopies: seq<string>, size: nat)
  {
    forall i :: 0 <= i < |readCopies| && Exists(fs, readCopies[i]) ==> SizeOf(fs, readCopies[i]) == Some(size)
  }

  /** Every write copy exists and its metadata gives `size`. */
  predicate WriteCopiesHaveSize(fs: Fs, writeCopies: seq<string>, size: nat)
  {
    forall k :: 0 <= k < |writeCopies| ==> SizeOf(fs, writeCopies[k]) == Some(size)
  }

  /** Every existing read copy and every write copy share one readable size. */
  ghost predicate CopiesMatch(fs: Fs, readCopies: seq<string>, writeCopies: seq<string>)
  {
    exists size: nat :: ReadCopiesHaveSize(fs, readCopies, size) && WriteCopiesHaveSize(fs, writeCopies, size)
  }

  /** All copies of the sub path, read and write, exist where required and share one size. */
  ghost predicate AllFilesMatchSpec(fs: Fs, readPaths: seq<string>, writePaths: seq<string>, subPath: string)
  {
    CopiesMatch(fs, CopyPaths(readPaths, subPath), CopyPaths(writePaths, subPath))
  }

  /** Some read root holds the sub path; `all_files_match` panics otherwise. */
  predicate SomeReadCopy(fs: Fs, readPaths: seq<string>, subPath: string)
  {
    exists i :: 0 <= i < |readPaths| && Exists(fs, CopyPaths(readPaths, subPath)[i])
  }

  method AllFilesMatch(fs: Fs, readPaths: seq<string>, writePaths: seq<string>, subPath: string) returns (matched: bool)
    requires SomeReadCopy(fs, readPaths, subPath)
    ensures matched <==> AllFilesMatchSpec(fs, readPaths, writePaths, subPath)
    ensures matched ==> forall k :: 0 <= k < |writePaths| ==> Exists(fs, CopyPaths(writePaths, subPath)[k])
  {
    var readCopies := CopyPaths(readPaths, subPath);
    var writeCopies := CopyPaths(writePaths, subPath);
    var found, fileSize, first := CommonReadSize(fs, readCopies);
    if !found {
      return false;
    }
    matched := WriteCopiesMatch(fs, writeCopies, fileSize);
    CommonSizeIs(fs, readCopies, writeCopies, first, fileSize);
  }

  /**
   * The loop over read roots of `all_files_match`: the size of the first existing read
   * copy, provided every existing read copy has readable metadata of that size.
   */
  method CommonReadSize(fs: Fs, readCopies: seq<string>) returns (found: bool, fileSize: nat, ghost first: nat)
    requires exists i :: 0 <= i < |readCopies| && Exists(fs, readCopies[i])
    ensures found ==> first < |readCopies| && Exists(fs, readCopies[first]) && ReadCopiesHaveSize(fs, readCopies, fileSize)
    ensures !found ==> forall size: nat :: !ReadCopiesHaveSize(fs, readCopies, size)
  {
    var foundReadFile := false;
    fileSize := 0;
    first := 0;
    for i := 0 to |readCopies|
      invariant !foundReadFile ==> forall j :: 0 <= j < i ==> !Exists(fs, readCopies[j])
      invariant foundReadFile ==> 0 <= first < i && Exists(fs, readCopies[first])
      invariant foundReadFile ==> SizeOf(fs, readCopies[first]) == Some(fileSize)
      invariant forall j :: 0 <= j < i && Exists(fs, readCopies[j]) ==> SizeOf(fs, readCopies[j]) == Some(fileSize)
    {
      var path := readCopies[i];
      if Exists(fs, path) {
        var size := SizeOf(fs, path);
        if size.None? {
          NoCommonReadSize(fs, readCopies, i, i);
          return false, fileSize, first;
        }
        if !foundReadFile {
          // the first copy found sets the size the others are compared with
          fileSize := size.value;
          foundReadFile := true;
          first := i;
        } else if size.value != fileSize {
          NoCommonReadSize(fs, readCopies, first, i);
          return false, fileSize, first;
        }
      }
    }
    // no read copy at all: the source panics here, which the precondition excludes
    assert foundReadFile;
    found := true;
  }

  /** The loop over write roots of `all_files_match`: every write copy exists with the given size. */
  method WriteCopiesMatch(fs: Fs, writeCopies: seq<string>, fileSize: nat) returns (matched: bool)
    ensures matched <==> WriteCopiesHaveSize(fs, writeCopies, fileSize)
  {
    for k := 0 to |writeCopies|
      invariant forall j :: 0 <= j < k ==> SizeOf(fs, writeCopies[j]) == Some(fileSize)
    {
      var path := writeCopies[k];
      // the file must exist in every write root to count as a match
      if !Exists(fs, path) || SizeOf(fs, path) != Some(fileSize) {
        return false;
      }
    }
    return true;
  }

  /** Two existing read copies without one common readable size rule out every common size. */
  lemma NoCommonReadSize(fs: Fs, readCopies: seq<string>, i: nat, j: nat)
    requires i < |readCopies| && j < |readCopies|
    requires Exists(fs, readCopies[i]) && Exists(fs, readCopies[j])
    requires SizeOf(fs, readCopies[i]).None? || SizeOf(fs, readCopies[i]) != SizeOf(fs, readCopies[j])
    ensures forall size: nat :: !ReadCopiesHaveSize(fs, readCopies, size)
  {
    forall size: nat
      ensures !ReadCopiesHaveSize(fs, readCopies, size)
    {
      if SizeOf(fs, readCopies[i]) != Some(size) {
      } else {
        assert SizeOf(fs, readCopies[j]) != Some(size);
      }
    }
  }

  /**
   * Once one existing read copy fixes the size, all copies match exactly when every
   * write copy has that size.
   */
  lemma CommonSizeIs(fs: Fs, readCopies: seq<string>, writeCopies: seq<string>, first: nat, fileSize: nat)
    requires first < |readCopies| && Exists(fs, readCopies[first]) && ReadCopiesHaveSize(fs, readCopies, fileSize)
    ensures CopiesMatch(fs, readCopies, writeCopies) <==> WriteCopiesHaveSize(fs, writeCopies, fileSize)
    ensures WriteCopiesHaveSize(fs, writeCopies, fileSize) ==> forall k :: 0 <= k < |writeCopies| ==> Exists(fs, writeCopies[k])
  {
    if size: nat :| ReadCopiesHaveSize(fs, readCopies, size) && WriteCopiesHaveSize(fs, writeCopies, size) {
      assert SizeOf(fs, readCopies[first]) == Some(size) == Some(fileSize);
    }
  }

  // ---------------------------------------------------------------------------
  // ensure_valid_read_write_paths

  /** Why a single read root is unusable, if it is. */
  function ReadPathError(fs: Fs, readPath: string): (r: Option<DitError>)
    ensures r.None? <==> readPath != "/" && IsDir(fs, readPath)
  {
    if readPath == "/" then Some(RootAsReadPath)
    else if !Exists(fs, readPath) then Some(ReadPathMissing(readPath))
    else if !IsDir(fs, readPath) then Some(ReadPathNotDir(readPath))
    else None
  }

  /** The first unusable read root's error, in the order given. */
  function FirstReadPathError(fs: Fs, readPaths: seq<string>): Option<DitError>
    decreases |readPaths|
  {
    if readPaths == [] then None
    else
      var before := FirstReadPathError(fs, readPaths[..|readPaths| - 1]);
      if before.Some? then before else ReadPathError(fs, readPaths[|readPaths| - 1])
  }

  /** The filesystem after preparing some write roots, and the error that stopped it, if any. */
  datatype Prepared = Prepared(fs: Fs, error: Option<DitError>)

  /** One write root: it must be a directory, or be created by a non-recursive `mkdir`. */
  function PrepareWritePath(fs: Fs, writePath: string): Prepared
  {
    if writePath == "/" then Prepared(fs, Some(RootAsWritePath))
    else if Exists(fs, writePath) then
      if IsDir(fs, writePath) then Prepared(fs, None) else Prepared(fs, Some(WritePathNotDir(writePath)))
    else
      match Mkdir(fs, writePath)
      case None => Prepared(fs, Some(MkdirFailed(writePath)))
      case Some(created) => Prepared(created, None)
  }

  /** The write roots in order, stopping at the first one that fails. */
  function PrepareWritePaths(fs: Fs, writePaths: seq<string>): Prepared
    decreases |writePaths|
  {
    if writePaths == [] then Prepared(fs, None)
    else
      var before := PrepareWritePaths(fs, writePaths[..|writePaths| - 1]);
      if before.error.Some? then before else PrepareWritePath(before.fs, writePaths[|writePaths| - 1])
  }

  method EnsureValidReadWritePaths(fs: Fs, paths: ReadWritePaths) returns (error: Option<DitError>, fs': Fs)
    ensures FirstReadPathError(fs, paths.readPaths).Some? ==>
      error == FirstReadPathError(fs, paths.readPaths) && fs' == fs
    ensures FirstReadPathError(fs, paths.readPaths).None? ==>
      Prepared(fs', error) == PrepareWritePaths(fs, paths.writePaths)
  {
    // all read roots are checked before any write root is touched
    for i := 0 to |paths.readPaths|
      invariant FirstReadPathError(fs, paths.readPaths[..i]).None?
    {
      assert paths.readPaths[..i + 1][..i] == paths.readPaths[..i];
      var e := ReadPathError(fs, paths.readPaths[i]);
      if e.Some? {
        assert FirstReadPathError(fs, paths.readPaths) == e by {
          FirstReadPathErrorStops(fs, paths.readPaths, i + 1);
        }
        return e, fs;
      }
    }
    assert paths.readPaths[..|paths.readPaths|] == paths.readPaths;
    fs' := fs;
    var writePaths := paths.writePaths;
    error := None;
    for k := 0 to |writePaths|
      invariant PrepareWritePaths(fs, writePaths[..k]) == Prepared(fs', None)
      invariant error.None?
    {
      assert writePaths[..k + 1][..k] == writePaths[..k];
      var writePath := writePaths[k];
      if writePath == "/" {
        error := Some(RootAsWritePath);
      } else if Exists(fs', writePath) {
        if !IsDir(fs', writePath) {
          error := Some(WritePathNotDir(writePath));
        }
      } else {
        var created := Mkdir(fs', writePath);
        if created.None? {
          error := Some(MkdirFailed(writePath));
        } else {
          fs' := created.value;
        }
      }
      if error.Some? {
        PrepareWritePathsStops(fs, writePaths, k + 1);
        return error, fs';
      }
    }
    assert writePaths[..|writePaths|] == writePaths;
    return None, fs';
  }

  /** Once a prefix of the read roots has an error, the whole list reports that error. */
  lemma {:induction false} FirstReadPathErrorStops(fs: Fs, readPaths: seq<string>, n: nat)
    requires n <= |readPaths| && FirstReadPathError(fs, readPaths[..n]).Some?
    ensures FirstReadPathError(fs, readPaths) == FirstReadPathError(fs, readPaths[..n])
    decreases |readPaths| - n
  {
    if n < |readPaths| {
      assert readPaths[..n + 1][..n] == readPaths[..n];
      FirstReadPathErrorStops(fs, readPaths, n + 1);
    } else {
      assert readPaths[..n] == readPaths;
    }
  }

  /** Once a prefix of the write roots has failed, the later ones are never touched. */
  lemma {:induction false} PrepareWritePathsStops(fs: Fs, writePaths: seq<string>, n: nat)
    requires n <= |writePaths| && PrepareWritePaths(fs, writePaths[..n]).error.Some?
    ensures PrepareWritePaths(fs, writePaths) == PrepareWritePaths(fs, writePaths[..n])
    decreases |writePaths| - n
  {
    if n < |writePaths| {
      assert writePaths[..n + 1][..n] == writePaths[..n];
      PrepareWritePathsStops(fs, writePaths, n + 1);
    } else {
      assert writePaths[..n] == writePaths;
    }
  }

  /** The read roots pass exactly when none is "/" and each is an existing directory. */
  lemma {:induction false} ReadPathsValid(fs: Fs, readPaths: seq<string>)
    ensures FirstReadPathError(fs, readPaths).None? <==>
      forall i :: 0 <= i < |readPaths| ==> readPaths[i] != "/" && IsDir(fs, readPaths[i])
    decreases |readPaths|
  {
    if readPaths != [] {
      var init := readPaths[..|readPaths| - 1];
      ReadPathsValid(fs, init);
      assert forall i :: 0 <= i < |init| ==> init[i] == readPaths[i];
    }
  }

  /** One write root: adds at most an empty directory at that root and keeps every directory. */
  lemma PrepareWritePathEffect(fs: Fs, w: string)
    ensures var p := PrepareWritePath(fs, w);
      && (forall q :: q in fs.nodes ==> q in p.fs.nodes && p.fs.nodes[q] == fs.nodes[q])
      && (forall q :: q in p.fs.nodes && q !in fs.nodes ==> q == w && p.fs.nodes[q] == Dir(NewDirSize, {}))
      && (forall q :: IsDir(fs, q) ==> IsDir(p.fs, q))
      && (p.error.None? ==> w != "/" && IsDir(p.fs, w))
  {
    if w != "/" && !Exists(fs, w) {
      match Mkdir(fs, w)
      case None =>
      case Some(created) =>
        assert forall q :: IsDir(fs, q) ==> IsDir(created, q);
    }
  }

  /**
   * Preparing the write roots only adds empty directories at write roots that were
   * missing, never changes what was there, and on success leaves every write root a
   * directory other than "/".
   */
  lemma {:induction false} PrepareWritePathsEffect(fs: Fs, writePaths: seq<string>)
    ensures var p := PrepareWritePaths(fs, writePaths);
      && (forall q :: q in fs.nodes ==> q in p.fs.nodes && p.fs.nodes[q] == fs.nodes[q])
      && (forall q :: q in p.fs.nodes && q !in fs.nodes ==> q in writePaths && p.fs.nodes[q] == Dir(NewDirSize, {}))
      && (p.error.None? ==> forall k :: 0 <= k < |writePaths| ==> writePaths[k] != "/" && IsDir(p.fs, writePaths[k]))
    decreases |writePaths|
  {
    if writePaths != [] {
      var n := |writePaths| - 1;
      var init := writePaths[..n];
      var w := writePaths[n];
      assert writePaths == init + [w];
      PrepareWritePathsEffect(fs, init);
      var before := PrepareWritePaths(fs, init);
      if before.error.None? {
        var after := PrepareWritePath(before.fs, w);
        assert PrepareWritePaths(fs, writePaths) == after;
        PrepareWritePathEffect(before.fs, w);
        forall q | q in after.fs.nodes && q !in fs.nodes
          ensures q in writePaths && after.fs.nodes[q] == Dir(NewDirSize, {})
        {
          if q in before.fs.nodes {
            assert q in init;
          }
        }
        if after.error.None? {
          forall k | 0 <= k < |writePaths|
            ensures writePaths[k] != "/" && IsDir(after.fs, writePaths[k])
          {
            if k < n {
              assert writePaths[k] == init[k];
            }
          }
        }
      }
    }
  }
}
