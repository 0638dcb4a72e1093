/**
 * The decisions the merge and copy threads of `threads.rs` make for one transfer: the
 * Ok < Conflict < Error ratchet, the names given to conflicting copies, the grouping of
 * hash results by digest, the copy requests planned for each write root, and the rule
 * that an existing destination is never copied over. Channel receives are inputs, sends
 * are the returned sequence of dispatches.
 */
module Threads {
  import opened Options
  import opened Ordering
  import opened Paths
  import opened FileSystem
  import opened Message
  import opened Common
  import opened Seqs

  // ---------------------------------------------------------------------------
  // max_merge_result

  /** The seriousness of a merge result. */
  function Severity(r: MergeResult): nat
  {
    match r
    case Ok => 0
    case Conflict => 1
    case Error => 2
  }

  function Max(a: nat, b: nat): nat
  {
    if a < b then b else a
  }

  /** The more serious of two results. */
  function MaxMergeResult(a: MergeResult, b: MergeResult): (r: MergeResult)
    ensures Severity(r) == Max(Severity(a), Severity(b))
    ensures r == a || r == b
  {
    if a == Error || b == Error then Error
    else if a == Conflict || b == Conflict then Conflict
    else Ok
  }

  /** The merge thread's running result after handling each transfer in turn, starting from Ok. */
  function Accumulate(results: seq<MergeResult>): MergeResult
  {
    if results == [] then Ok
    else MaxMergeResult(Accumulate(results[..|results| - 1]), results[|results| - 1])
  }

  /** The ratchet is order-insensitive and absorbs repeats. */
  lemma MaxMergeResultAlgebra(a: MergeResult, b: MergeResult, c: MergeResult)
    ensures MaxMergeResult(a, b) == MaxMergeResult(b, a)
    ensures MaxMergeResult(a, a) == a
    ensures MaxMergeResult(MaxMergeResult(a, b), c) == MaxMergeResult(a, MaxMergeResult(b, c))
    ensures MaxMergeResult(Ok, a) == a && MaxMergeResult(Error, a) == Error
  {
  }

  /** The accumulated result is the most serious result handled, or Ok when there was none. */
  lemma {:induction false} AccumulateIsWorst(results: seq<MergeResult>)
    ensures forall i :: 0 <= i < |results| ==> Severity(results[i]) <= Severity(Accumulate(results))
    ensures Accumulate(results) == Ok || Accumulate(results) in results
    decreases |results|
  {
    if results != [] {
      var init := results[..|results| - 1];
      AccumulateIsWorst(init);
      assert forall i :: 0 <= i < |init| ==> init[i] == results[i];
    }
  }

  /** Handling more transfers never lowers the accumulated result. */
  lemma {:induction false} AccumulateNeverDecreases(results: seq<MergeResult>, n: nat)
    requires n <= |results|
    ensures Severity(Accumulate(results[..n])) <= Severity(Accumulate(results))
    decreases |results| - n
  {
    if n < |results| {
      AccumulateNeverDecreases(results, n + 1);
      assert results[..n + 1][..n] == results[..n];
    } else {
      assert results[..n] == results;
    }
  }

  // ---------------------------------------------------------------------------
  // get_merge_conflict_dest_file_path

  const WriteMergeConflictType: string := "WRITE_MERGE_CONFLICT"
  const ReadMergeConflictType: string := "READ_MERGE_CONFLICT"

  /** The hash written into a conflict name: the one given, else the on-disk hash if it could be computed, else nothing. */
  function HashSegment(hash: Option<string>, diskHash: Option<string>): string
  {
    if hash.Some? then hash.value
    else if diskHash.Some? then diskHash.value
    else []
  }

  /** `<stem>.` when the source has a file name, else nothing. */
  function StemPart(srcPath: string): string
  {
    match FileName(srcPath)
    case None => []
    case Some(name) => SplitAtDot(name).0 + "."
  }

  /** `.<extension>` when the source's file name has one, else nothing. */
  function ExtensionPart(srcPath: string): string
  {
    match FileName(srcPath)
    case None => []
    case Some(name) => if SplitAtDot(name).1.Some? then "." + SplitAtDot(name).1.value else []
  }

  /**
   * `<stem>.__<TYPE>__<hash>.<extension>`, each optional part present only when the source
   * has it; with a type and hash free of '/', it is a single path component.
   */
  function ConflictFileName(srcPath: string, conflictType: string, hash: Option<string>, diskHash: Option<string>): (r: string)
    ensures '/' !in conflictType && '/' !in HashSegment(hash, diskHash) ==> '/' !in r
  {
    NamePartsHaveNoSeparator(srcPath);
    StemPart(srcPath) + "__" + conflictType + "__" + HashSegment(hash, diskHash) + ExtensionPart(srcPath)
  }

  /** The stem and extension parts come from the file name, which holds no '/'. */
  lemma NamePartsHaveNoSeparator(srcPath: string)
    ensures '/' !in StemPart(srcPath) && '/' !in ExtensionPart(srcPath)
  {
    match FileName(srcPath)
    case None =>
    case Some(name) =>
      SplitAtDotRoundTrip(name);
      var (stem, ext) := SplitAtDot(name);
      if ext.Some? {
        assert name == stem + "." + ext.value;
        assert forall c :: c in stem ==> c in name;
        assert forall c :: c in ext.value ==> c in name;
      }
  }

  /** The directory of the sub path inside a write root. */
  function ConflictDir(writePath: string, subPath: string): string
  {
    match Parent(subPath)
    case None => writePath
    case Some(parent) => Join(writePath, parent)
  }

  /**
   * Where a conflicting copy goes: beside the sub path in the write root, under the
   * conflict name, which is then the path's last component.
   */
  function ConflictDestPath(writePath: string, srcPath: string, subPath: string, hash: Option<string>,
                            diskHash: Option<string>, conflictType: string): (r: string)
    ensures '/' !in conflictType && '/' !in HashSegment(hash, diskHash) ==>
      LastSegment(r) == ConflictFileName(srcPath, conflictType, hash, diskHash)
  {
    var dir := ConflictDir(writePath, subPath);
    var name := ConflictFileName(srcPath, conflictType, hash, diskHash);
    ConflictFileNameRelative(srcPath, conflictType, hash, diskHash);
    assert Join(dir, name) == DirPrefix(dir) + name;
    LastSegmentAfterSeparator(DirPrefix(dir), name);
    Join(dir, name)
  }

  /** The part of a path up to and including its last '/' (nothing when it has none). */
  function DirPart(p: string): (r: string)
    ensures r + LastSegment(p) == p
  {
    p[..|p| - |LastSegment(p)|]
  }

  /**
   * The conflict name keeps the source's stem and extension around the tag: a source
   * named `stem.ext` gives `stem.__TYPE__hash.ext`, and one without an extension gives
   * `stem.__TYPE__hash`.
   */
  lemma ConflictFileNameLayout(srcPath: string, conflictType: string, hash: Option<string>, diskHash: Option<string>)
    requires FileName(srcPath).Some?
    ensures var (stem, ext) := SplitAtDot(FileName(srcPath).value);
      var tagged := stem + "." + "__" + conflictType + "__" + HashSegment(hash, diskHash);
      && (ext.Some? ==> ConflictFileName(srcPath, conflictType, hash, diskHash) == tagged + "." + ext.value)
      && (ext.None? ==> ConflictFileName(srcPath, conflictType, hash, diskHash) == tagged)
  {
    var name := FileName(srcPath).value;
    var (stem, ext) := SplitAtDot(name);
    assert StemPart(srcPath) == stem + ".";
    var extPart := ExtensionPart(srcPath);
    assert ext.Some? ==> extPart == "." + ext.value;
    assert ext.None? ==> extPart == [];
    var tagged := stem + "." + "__" + conflictType + "__" + HashSegment(hash, diskHash);
    assert ConflictFileName(srcPath, conflictType, hash, diskHash) == tagged + extPart;
  }

  /**
   * When neither the type nor the hash contains a dot, the conflict name splits at its
   * last dot into the tagged stem and the source's own extension: the extension stays
   * the final suffix.
   */
  lemma ConflictFileNameKeepsExtension(srcPath: string, conflictType: string, hash: Option<string>, diskHash: Option<string>)
    requires FileName(srcPath).Some?
    requires '.' !in conflictType && '.' !in HashSegment(hash, diskHash)
    requires SplitAtDot(FileName(srcPath).value).1.Some?
    ensures var ext := SplitAtDot(FileName(srcPath).value).1;
      var name := ConflictFileName(srcPath, conflictType, hash, diskHash);
      SplitAtDot(name).1 == ext
  {
    var (stem, ext) := SplitAtDot(FileName(srcPath).value);
    SplitAtDotRoundTrip(FileName(srcPath).value);
    var tagged := stem + "." + "__" + conflictType + "__" + HashSegment(hash, diskHash);
    var name := ConflictFileName(srcPath, conflictType, hash, diskHash);
    assert name == tagged + "." + ext.value;
    LastDotOfSuffix(tagged, ext.value);
    assert LastDot(name) == Some(|tagged|);
  }

  /**
   * A source without an extension gets one: the conflict name splits at the dot added
   * after the stem, and the tag `__<TYPE>__<hash>` becomes its extension.
   */
  lemma ConflictFileNameGainsExtension(srcPath: string, conflictType: string, hash: Option<string>, diskHash: Option<string>)
    requires FileName(srcPath).Some?
    requires '.' !in conflictType && '.' !in HashSegment(hash, diskHash)
    requires SplitAtDot(FileName(srcPath).value).1.None?
    ensures SplitAtDot(ConflictFileName(srcPath, conflictType, hash, diskHash)).1
         == Some("__" + conflictType + "__" + HashSegment(hash, diskHash))
  {
    var tag := "__" + conflictType + "__" + HashSegment(hash, diskHash);
    ConflictFileNameWithoutExtension(srcPath, conflictType, hash, diskHash);
    TagIsDotFree(conflictType, HashSegment(hash, diskHash));
    SplitOfTagged(FileName(srcPath).value, tag);
  }

  /** For a source without an extension, the conflict name is the file name, a dot and the tag. */
  lemma ConflictFileNameWithoutExtension(srcPath: string, conflictType: string, hash: Option<string>, diskHash: Option<string>)
    requires FileName(srcPath).Some? && SplitAtDot(FileName(srcPath).value).1.None?
    ensures ConflictFileName(srcPath, conflictType, hash, diskHash)
         == FileName(srcPath).value + "." + ("__" + conflictType + "__" + HashSegment(hash, diskHash))
  {
    var name := FileName(srcPath).value;
    var h := HashSegment(hash, diskHash);
    var tag := "__" + conflictType + "__" + h;
    ConflictFileNameLayout(srcPath, conflictType, hash, diskHash);
    SplitAtDotRoundTrip(name);
    assert SplitAtDot(name).0 == name;
    var a := name + ".";
    assert ConflictFileName(srcPath, conflictType, hash, diskHash) == a + "__" + conflictType + "__" + h;
    AppendTail(a, "__", conflictType, "__", h);
  }

  /** The tag `__<TYPE>__<hash>` is not empty, and has no dot when its parts have none. */
  lemma TagIsDotFree(conflictType: string, h: string)
    requires '.' !in conflictType && '.' !in h
    ensures var tag := "__" + conflictType + "__" + h; tag != [] && '.' !in tag
  {
    var tag := "__" + conflictType + "__" + h;
    assert tag[0] == '_';
    assert forall c :: c in tag ==> c == '_' || c in conflictType || c in h;
  }

  /** A non-empty stem, a dot and a dot-free tag split back into that stem and tag. */
  lemma SplitOfTagged(stem: string, tag: string)
    requires stem != [] && tag != [] && '.' !in tag
    ensures SplitAtDot(stem + "." + tag) == (stem, Some(tag))
  {
    var name := stem + "." + tag;
    LastDotOfSuffix(stem, tag);
    assert |name| > 2;
    assert name[..|stem|] == stem && name[|stem| + 1..] == tag;
  }

  /** A name ending in `.` and a dot-free suffix has its last dot just before the suffix. */
  lemma {:induction false} LastDotOfSuffix(prefix: string, suffix: string)
    requires '.' !in suffix
    ensures LastDot(prefix + "." + suffix) == Some(|prefix|)
    decreases |suffix|
  {
    var s := prefix + "." + suffix;
    if suffix != [] {
      var init := suffix[..|suffix| - 1];
      assert s[..|s| - 1] == prefix + "." + init;
      LastDotOfSuffix(prefix, init);
    }
  }

  /** The conflict name is strictly longer than the source's file name, so never equal to it. */
  lemma ConflictFileNameIsNew(srcPath: string, conflictType: string, hash: Option<string>, diskHash: Option<string>)
    requires FileName(srcPath).Some?
    ensures |ConflictFileName(srcPath, conflictType, hash, diskHash)| > |FileName(srcPath).value|
    ensures ConflictFileName(srcPath, conflictType, hash, diskHash) != FileName(srcPath).value
  {
    SplitAtDotRoundTrip(FileName(srcPath).value);
  }

  /** For one source, sub path and type, different hashes give different conflict names. */
  lemma ConflictFileNameInjective(srcPath: string, conflictType: string, h1: string, h2: string)
    requires h1 != h2
    ensures ConflictFileName(srcPath, conflictType, Some(h1), None) != ConflictFileName(srcPath, conflictType, Some(h2), None)
  {
    var p := StemPart(srcPath) + "__" + conflictType + "__";
    var x := ExtensionPart(srcPath);
    var n1 := ConflictFileName(srcPath, conflictType, Some(h1), None);
    var n2 := ConflictFileName(srcPath, conflictType, Some(h2), None);
    assert n1 == p + h1 + x;
    assert n2 == p + h2 + x;
    assert n1[|p|..|n1| - |x|] == h1;
    assert n2[|p|..|n2| - |x|] == h2;
  }

  /** Joining one directory with two different relative names gives two different paths. */
  lemma JoinInjective(dir: string, a: string, b: string)
    requires a != b
    requires a != [] && a[0] != '/' && b != [] && b[0] != '/'
    ensures Join(dir, a) != Join(dir, b)
  {
    var d := DirPrefix(dir);
    assert Join(dir, a) == d + a && Join(dir, b) == d + b;
    assert (d + a)[|d|..] == a;
    assert (d + b)[|d|..] == b;
  }

  /** The conflict name is never empty and never starts with '/', so it always lands inside its directory. */
  lemma ConflictFileNameRelative(srcPath: string, conflictType: string, hash: Option<string>, diskHash: Option<string>)
    ensures var name := ConflictFileName(srcPath, conflictType, hash, diskHash);
      name != [] && name[0] != '/'
  {
    var name := ConflictFileName(srcPath, conflictType, hash, diskHash);
    match FileName(srcPath)
    case None =>
      assert name[0] == '_';
    case Some(n) =>
      SplitAtDotRoundTrip(n);
      var stem := SplitAtDot(n).0;
      assert stem != [] && stem[0] == n[0];
      assert name[0] == stem[0];
  }

  /**
   * For a fixed write root, sub path and type, sources with the same file name but
   * distinct hashes get distinct conflict paths.
   */
  lemma ConflictDestPathInjective(writePath: string, src1: string, src2: string, subPath: string, conflictType: string, h1: string, h2: string)
    requires FileName(src1) == FileName(src2)
    requires h1 != h2
    ensures ConflictDestPath(writePath, src1, subPath, Some(h1), None, conflictType)
         != ConflictDestPath(writePath, src2, subPath, Some(h2), None, conflictType)
  {
    assert ConflictFileName(src2, conflictType, Some(h2), None) == ConflictFileName(src1, conflictType, Some(h2), None);
    ConflictFileNameInjective(src1, conflictType, h1, h2);
    ConflictFileNameRelative(src1, conflictType, Some(h1), None);
    ConflictFileNameRelative(src1, conflictType, Some(h2), None);
    JoinInjective(ConflictDir(writePath, subPath), ConflictFileName(src1, conflictType, Some(h1), None),
      ConflictFileName(src1, conflictType, Some(h2), None));
  }

  /** A discovered sub path has no "//", so the text before its last segment does not end in '/'. */
  lemma ParentOfSubPath(subPath: string)
    requires IsSubPath(subPath)
    ensures var parent := Parent(subPath).value;
      && (parent == [] <==> DirPart(subPath) == [])
      && (parent != [] ==> DirPart(subPath) == parent + "/" && parent[0] != '/' && parent[|parent| - 1] != '/')
  {
    var last := LastSegment(subPath);
    LastSegmentOfSubPath(subPath);
    if |last| < |subPath| {
      var parent := Parent(subPath).value;
      var i := |subPath| - |last| - 1;
      assert subPath[i] == '/';
      assert i > 0 by { assert subPath[0] != '/'; }
      assert ComponentStartOk(subPath, i - 1);
      assert parent == subPath[..i];
    }
  }

  /** The plain destination of a discovered sub path is the write root's directory prefix, the sub path's directories and its last segment. */
  lemma PlainDestLayout(writePath: string, subPath: string)
    requires IsSubPath(subPath)
    ensures Join(writePath, subPath) == DirPrefix(writePath) + DirPart(subPath) + LastSegment(subPath)
  {
    var prefix := DirPrefix(writePath);
    var dir := DirPart(subPath);
    var last := LastSegment(subPath);
    assert dir + last == subPath;
    assert subPath[0] != '/';
    assert Join(writePath, subPath) == prefix + subPath;
    assert prefix + (dir + last) == prefix + dir + last;
  }

  /** The directory a conflict copy goes to, with its separator, is the write root's prefix followed by the sub path's directories. */
  lemma ConflictDirLayout(writePath: string, subPath: string)
    requires IsSubPath(subPath)
    ensures DirPrefix(ConflictDir(writePath, subPath)) == DirPrefix(writePath) + DirPart(subPath)
  {
    ParentOfSubPath(subPath);
    var parent := Parent(subPath).value;
    if parent == [] {
      DirPrefixSettled(writePath);
    } else {
      DirPrefixAfterComponent(writePath, parent);
    }
  }

  lemma DirPrefixSettled(base: string)
    ensures Join(base, []) == DirPrefix(base) && DirPrefix(DirPrefix(base)) == DirPrefix(base)
  {
  }

  lemma DirPrefixAfterComponent(base: string, component: string)
    requires component != [] && component[0] != '/' && component[|component| - 1] != '/'
    ensures Join(base, component) == DirPrefix(base) + component
    ensures DirPrefix(DirPrefix(base) + component) == DirPrefix(base) + component + "/"
  {
    var dir := DirPrefix(base) + component;
    assert dir[|dir| - 1] == component[|component| - 1];
  }

  /**
   * The conflict copy of a discovered sub path lies in the same directory as the plain
   * destination: only the last segment is replaced by the conflict name.
   */
  lemma ConflictDestBesidePlain(writePath: string, srcPath: string, subPath: string, hash: Option<string>,
                                diskHash: Option<string>, conflictType: string)
    requires IsSubPath(subPath)
    ensures ConflictDestPath(writePath, srcPath, subPath, hash, diskHash, conflictType)
         == DirPrefix(writePath) + DirPart(subPath) + ConflictFileName(srcPath, conflictType, hash, diskHash)
  {
    ConflictDirLayout(writePath, subPath);
    ConflictFileNameRelative(srcPath, conflictType, hash, diskHash);
  }

  /**
   * When the source's file name is the sub path's last segment, as it is for every copy
   * discovery finds, the conflict destination never coincides with the plain one.
   */
  lemma ConflictDestDiffersFromPlain(writePath: string, srcPath: string, subPath: string, hash: Option<string>,
                                     diskHash: Option<string>, conflictType: string)
    requires IsSubPath(subPath) && FileName(srcPath) == Some(LastSegment(subPath))
    ensures ConflictDestPath(writePath, srcPath, subPath, hash, diskHash, conflictType) != Join(writePath, subPath)
  {
    PlainDestLayout(writePath, subPath);
    ConflictDestBesidePlain(writePath, srcPath, subPath, hash, diskHash, conflictType);
    ConflictFileNameIsNew(srcPath, conflictType, hash, diskHash);
  }

  // ---------------------------------------------------------------------------
  // handle_hash_merge and handle_copy_to_dest

  /** What a blocking `recv` yields: a message, or the error of a disconnected channel. */
  datatype Recv<T> = Received(value: T) | Disconnected

  /** A copy request sent on the copy channel of write root number `channel`. */
  datatype Dispatch = Dispatch(channel: nat, request: CopyFileRequest)

  /**
   * The destination in one write root: the sub path itself, or the write-conflict name
   * beside it. For a discovered copy, the plain destination is used exactly when there is
   * no conflict.
   */
  function WriteDest(writePath: string, srcPath: string, subPath: string, hash: Option<string>,
                     diskHash: Option<string>, conflict: bool): (r: string)
    ensures IsSubPath(subPath) && FileName(srcPath) == Some(LastSegment(subPath)) ==>
      (r == Join(writePath, subPath) <==> !conflict)
  {
    if !conflict then Join(writePath, subPath)
    else if IsSubPath(subPath) && FileName(srcPath) == Some(LastSegment(subPath)) then
      ConflictDestDiffersFromPlain(writePath, srcPath, subPath, hash, diskHash, WriteMergeConflictType);
      ConflictDestPath(writePath, srcPath, subPath, hash, diskHash, WriteMergeConflictType)
    else ConflictDestPath(writePath, srcPath, subPath, hash, diskHash, WriteMergeConflictType)
  }

  /**
   * One copy of `srcPath` per write root, in order, each on that root's channel; `diskHashes[i]`
   * is what hashing the source gives while root `i` is handled.
   */
  function FanOut(writePaths: seq<string>, srcPath: string, subPath: string, hash: Option<string>,
                  diskHashes: seq<Option<string>>, conflict: bool): (r: seq<Dispatch>)
    requires |diskHashes| == |writePaths|
    ensures |r| == |writePaths|
  {
    seq(|writePaths|, i requires 0 <= i < |writePaths| =>
      Dispatch(i, CopyFileRequest(srcPath, WriteDest(writePaths[i], srcPath, subPath, hash, diskHashes[i], conflict))))
  }

  /** No on-disk hashes: the hash-merge branch always has the digest it received. */
  function NoDiskHashes(n: nat): (r: seq<Option<string>>)
    ensures |r| == n && forall i :: 0 <= i < n ==> r[i].None?
  {
    seq(n, i => None)
  }

  /** The hash results of a merge keyed by digest, the earliest read root winning for a repeated digest. */
  function FirstByHash(results: seq<Option<HashResult>>): (m: map<string, HashResult>)
    ensures forall h :: h in m ==> m[h].hash == h
    ensures forall h :: h in m <==> exists j :: 0 <= j < |results| && results[j].Some? && results[j].value.hash == h
    decreases |results|
  {
    if results == [] then map[]
    else
      var init := results[..|results| - 1];
      var m := FirstByHash(init);
      assert forall j :: 0 <= j < |init| ==> init[j] == results[j];
      match results[|results| - 1]
      case None => m
      case Some(r) => if r.hash in m then m else m[r.hash := r]
  }

  /** A digest maps to the result of the first read root that reported it. */
  lemma {:induction false} FirstByHashEarliestWins(results: seq<Option<HashResult>>, j: nat)
    requires j < |results| && results[j].Some?
    requires forall i :: 0 <= i < j && results[i].Some? ==> results[i].value.hash != results[j].value.hash
    ensures FirstByHash(results)[results[j].value.hash] == results[j].value
    decreases |results|
  {
    var init := results[..|results| - 1];
    if j < |init| {
      assert forall i :: 0 <= i < |init| ==> init[i] == results[i];
      FirstByHashEarliestWins(init, j);
    } else {
      assert forall i :: 0 <= i < |init| ==> init[i] == results[i];
    }
  }

  /** One more result keeps the map unless it brings a digest not seen before. */
  lemma FirstByHashSnoc(results: seq<Option<HashResult>>, x: Option<HashResult>)
    ensures FirstByHash(results + [x]) ==
      if x.Some? && x.value.hash !in FirstByHash(results) then FirstByHash(results)[x.value.hash := x.value]
      else FirstByHash(results)
  {
    assert (results + [x])[..|results|] == results;
  }

  /** Every channel delivered a message (possibly the `None` placeholder). */
  predicate AllReceived<T>(received: seq<Recv<T>>)
  {
    forall j :: 0 <= j < |received| ==> received[j].Received?
  }

  function Values<T>(received: seq<Recv<T>>): (r: seq<T>)
    requires AllReceived(received)
    ensures |r| == |received| && forall j :: 0 <= j < |r| ==> r[j] == received[j].value
  {
    seq(|received|, j requires 0 <= j < |received| => received[j].value)
  }

  /** The values delivered by one more channel. */
  lemma ValuesSnoc<T>(received: seq<Recv<T>>, k: nat)
    requires k < |received| && AllReceived(received[..k + 1])
    ensures AllReceived(received[..k]) && Values(received[..k + 1]) == Values(received[..k]) + [received[k].value]
  {
    assert received[..k + 1][..k] == received[..k];
  }

  /** The distinct hash results in ascending digest order, as a `BTreeMap` iterates them. */
  ghost function Entries(m: map<string, HashResult>): (r: seq<HashResult>)
    ensures |r| == |m|
  {
    var keys := SortedList(m.Keys);
    assert |m.Keys| == |m|;
    seq(|keys|, j requires 0 <= j < |keys| => m[keys[j]])
  }

  /** The read-conflict copy requests for one write root: each distinct copy under its own digest-keyed name. */
  function ReadConflictRequests(writePath: string, entries: seq<HashResult>): (r: seq<CopyFileRequest>)
    ensures |r| == |entries|
  {
    seq(|entries|, j requires 0 <= j < |entries| =>
      CopyFileRequest(entries[j].srcPath,
        ConflictDestPath(writePath, entries[j].srcPath, entries[j].subPath, Some(entries[j].hash), None, ReadMergeConflictType)))
  }

  /** The read-conflict copies for one write root, sent on that root's channel. */
  function ReadConflictRow(channel: nat, writePath: string, entries: seq<HashResult>): (r: seq<Dispatch>)
    ensures |r| == |entries|
  {
    var requests := ReadConflictRequests(writePath, entries);
    seq(|requests|, j requires 0 <= j < |requests| => Dispatch(channel, requests[j]))
  }

  /** The read-conflict rows of all write roots, one per root. */
  function ReadConflictRows(writePaths: seq<string>, entries: seq<HashResult>): (r: seq<seq<Dispatch>>)
    ensures |r| == |writePaths| && forall i :: 0 <= i < |r| ==> |r[i]| == |entries|
  {
    seq(|writePaths|, i requires 0 <= i < |writePaths| => ReadConflictRow(i, writePaths[i], entries))
  }

  /** The read-conflict rows of all write roots, root by root. */
  function ReadConflictDispatches(writePaths: seq<string>, entries: seq<HashResult>): (r: seq<Dispatch>)
    ensures |r| == |writePaths| * |entries|
  {
    FlattenLength(ReadConflictRows(writePaths, entries), |entries|);
    Flatten(ReadConflictRows(writePaths, entries))
  }

  /** What `handle_hash_merge` returns and sends, given what each hash result channel delivers. */
  ghost function HashMergePlan(fs: Fs, writePaths: seq<string>, received: seq<Recv<Option<HashResult>>>, clean: bool)
    : (MergeResult, seq<Dispatch>)
  {
    if !AllReceived(received) then (Error, [])
    else
      var m := FirstByHash(Values(received));
      if |m| == 0 then (Error, [])
      else if |m| == 1 then
        var only := Entries(m)[0];
        var conflict := WriteMergeConflict(fs, writePaths, only.srcPath, only.subPath);
        (if conflict then Conflict else Ok,
         if clean then FanOut(writePaths, only.srcPath, only.subPath, Some(only.hash), NoDiskHashes(|writePaths|), conflict) else [])
      else (Conflict, ReadConflictDispatches(writePaths, Entries(m)))
  }

  /**
   * The receive loop of `handle_hash_merge`: one message from each hash result channel in
   * turn, keeping the first result for each digest; stops at the first disconnected channel.
   */
  method CollectByHash(received: seq<Recv<Option<HashResult>>>)
    returns (complete: bool, m: map<string, HashResult>, keys: seq<string>)
    ensures complete <==> AllReceived(received)
    ensures complete ==> m == FirstByHash(Values(received)) && keys == SortedList(m.Keys) && |keys| == |m|
  {
    m := map[];
    keys := [];
    for k := 0 to |received|
      invariant AllReceived(received[..k])
      invariant m == FirstByHash(Values(received[..k]))
      invariant StrictlySorted(keys) && forall h :: h in keys <==> h in m
    {
      assert received[..k + 1][..k] == received[..k];
      match received[k]
      case Disconnected =>
        return false, m, keys;
      case Received(option) =>
        ValuesSnoc(received, k);
        FirstByHashSnoc(Values(received[..k]), option);
        if option.Some? && option.value.hash !in m {
          m := m[option.value.hash := option.value];
          keys := InsertSorted(keys, option.value.hash);
        }
    }
    assert received[..|received|] == received;
    KeysAreSortedList(m, keys);
    complete := true;
  }

  method HandleHashMerge(fs: Fs, writePaths: seq<string>, received: seq<Recv<Option<HashResult>>>, clean: bool)
    returns (result: MergeResult, sent: seq<Dispatch>)
    ensures (result, sent) == HashMergePlan(fs, writePaths, received, clean)
  {
    // the map of digest to hash result, and its keys in `BTreeMap` order
    var complete, m, keys := CollectByHash(received);
    if !complete {
      return Error, [];
    }
    if |m| == 0 {
      return Error, [];
    } else if |m| == 1 {
      // everything matched the same digest: copy that one file to every write root
      var only := m[keys[0]];
      var conflict := HasWriteMergeConflict(fs, writePaths, only.srcPath, only.subPath);
      sent := SendToWriteRoots(writePaths, only.srcPath, only.subPath, Some(only.hash), NoDiskHashes(|writePaths|), conflict, clean);
      result := if conflict then Conflict else Ok;
    } else {
      // the copies differ: every distinct copy goes to every write root under a digest-keyed name
      sent := SendReadConflicts(writePaths, m, keys);
      result := Conflict;
    }
  }

  /**
   * The loop over the write roots shared by both handlers: one copy request per root on
   * that root's channel, sent only while the run is clean.
   */
  method SendToWriteRoots(writePaths: seq<string>, srcPath: string, subPath: string, hash: Option<string>,
                          diskHashes: seq<Option<string>>, conflict: bool, clean: bool) returns (sent: seq<Dispatch>)
    requires |diskHashes| == |writePaths|
    ensures sent == if clean then FanOut(writePaths, srcPath, subPath, hash, diskHashes, conflict) else []
  {
    ghost var planned := FanOut(writePaths, srcPath, subPath, hash, diskHashes, conflict);
    sent := [];
    for i := 0 to |writePaths|
      invariant sent == if clean then planned[..i] else []
    {
      var dest := WriteDest(writePaths[i], srcPath, subPath, hash, diskHashes[i], conflict);
      if clean {
        PrefixSnoc(planned, i);
        sent := sent + [Dispatch(i, CopyFileRequest(srcPath, dest))];
      }
    }
    assert planned[..|writePaths|] == planned;
  }

  /** The read-conflict branch: for each write root, each distinct copy in ascending digest order. */
  method SendReadConflicts(writePaths: seq<string>, m: map<string, HashResult>, keys: seq<string>) returns (sent: seq<Dispatch>)
    requires keys == SortedList(m.Keys)
    ensures sent == ReadConflictDispatches(writePaths, Entries(m))
  {
    ghost var rows := ReadConflictRows(writePaths, Entries(m));
    sent := [];
    for i := 0 to |writePaths|
      invariant sent == Flatten(rows[..i])
    {
      var row := SendReadConflictRow(i, writePaths[i], m, keys);
      assert rows[..i + 1][..i] == rows[..i] && rows[..i + 1][i] == row;
      sent := sent + row;
    }
    assert rows[..|writePaths|] == rows;
  }

  /** The inner loop of the read-conflict branch: every distinct copy to one write root's channel. */
  method SendReadConflictRow(channel: nat, writePath: string, m: map<string, HashResult>, keys: seq<string>)
    returns (row: seq<Dispatch>)
    requires keys == SortedList(m.Keys)
    ensures row == ReadConflictRow(channel, writePath, Entries(m))
  {
    ghost var entries := Entries(m);
    ghost var planned := ReadConflictRow(channel, writePath, entries);
    row := [];
    for j := 0 to |keys|
      invariant row == planned[..j]
    {
      var hashRes := m[keys[j]];
      assert hashRes == entries[j];
      var dest := ConflictDestPath(writePath, hashRes.srcPath, hashRes.subPath, Some(hashRes.hash), None, ReadMergeConflictType);
      PrefixSnoc(planned, j);
      assert planned[j] == Dispatch(channel, CopyFileRequest(hashRes.srcPath, dest));
      row := row + [Dispatch(channel, CopyFileRequest(hashRes.srcPath, dest))];
    }
    assert planned[..|keys|] == planned;
  }

  /** Keys kept sorted as they are inserted are the sorted list of the map's keys. */
  lemma KeysAreSortedList(m: map<string, HashResult>, keys: seq<string>)
    requires StrictlySorted(keys) && forall h :: h in keys <==> h in m
    ensures keys == SortedList(m.Keys) && |keys| == |m|
  {
    SortedUnique(keys, SortedList(m.Keys));
    assert |m.Keys| == |m|;
  }

  /**
   * `handle_copy_to_dest`: one copy-to-dest request, fanned out to every write root; on a
   * write conflict each root's copy is renamed with the source's hash, computed anew for
   * every root (`diskHashes[i]`, `None` when hashing failed).
   */
  method HandleCopyToDest(fs: Fs, writePaths: seq<string>, received: Recv<CopyToDestRequest>,
                          diskHashes: seq<Option<string>>, clean: bool)
    returns (result: MergeResult, sent: seq<Dispatch>)
    requires |diskHashes| == |writePaths|
    ensures received.Disconnected? ==> result == Error && sent == []
    ensures received.Received? ==> var request := received.value;
      && result == Ok
      && sent == if clean then FanOut(writePaths, request.srcPath, request.subPath, None, diskHashes,
                                      WriteMergeConflict(fs, writePaths, request.srcPath, request.subPath))
                 else []
  {
    match received
    case Disconnected =>
      return Error, [];
    case Received(request) =>
      var conflict := HasWriteMergeConflict(fs, writePaths, request.srcPath, request.subPath);
      sent := SendToWriteRoots(writePaths, request.srcPath, request.subPath, None, diskHashes, conflict, clean);
      // a write conflict is only renamed, not reported
      result := Ok;
  }

  // ---------------------------------------------------------------------------
  // properties of handle_hash_merge

  /** Every channel delivered only the `None` placeholder. */
  predicate NoHashResults(received: seq<Recv<Option<HashResult>>>)
  {
    forall j :: 0 <= j < |received| ==> received[j] == Received(None)
  }

  /**
   * The merge fails exactly when some channel is disconnected or no channel delivered a
   * result, and then nothing is sent.
   */
  lemma HashMergeErrorCases(fs: Fs, writePaths: seq<string>, received: seq<Recv<Option<HashResult>>>, clean: bool)
    ensures var (result, sent) := HashMergePlan(fs, writePaths, received, clean);
      && (result == Error <==> !AllReceived(received) || NoHashResults(received))
      && (result == Error ==> sent == [])
  {
    if AllReceived(received) {
      var values := Values(received);
      var m := FirstByHash(values);
      if NoHashResults(received) {
        assert m.Keys == {};
      } else {
        var j :| 0 <= j < |received| && received[j] != Received(None);
        assert values[j].value.hash in m;
      }
    }
  }

  /**
   * With a single digest, the copy of the first read root that has the file goes to every
   * write root, renamed in all of them when the write-conflict test holds; the result is
   * Conflict exactly when it holds, Ok otherwise.
   */
  lemma HashMergeSingleDigest(fs: Fs, writePaths: seq<string>, received: seq<Recv<Option<HashResult>>>, clean: bool, j: nat)
    requires AllReceived(received) && |FirstByHash(Values(received))| == 1
    requires j < |received| && received[j].value.Some?
    requires forall i :: 0 <= i < j ==> received[i] == Received(None)
    ensures var (result, sent) := HashMergePlan(fs, writePaths, received, clean);
      var first := received[j].value.value;
      var conflict := WriteMergeConflict(fs, writePaths, first.srcPath, first.subPath);
      && (result == if conflict then Conflict else Ok)
      && (sent == if clean then FanOut(writePaths, first.srcPath, first.subPath, Some(first.hash), NoDiskHashes(|writePaths|), conflict) else [])
  {
    var values := Values(received);
    var m := FirstByHash(values);
    var first := received[j].value.value;
    FirstByHashEarliestWins(values, j);
    assert m.Keys == {first.hash} by {
      assert first.hash in m;
      forall h | h in m ensures h == first.hash {
        OnlyKey(m, first.hash, h);
      }
    }
    assert SortedList(m.Keys) == [first.hash];
  }

  lemma OnlyKey(m: map<string, HashResult>, a: string, b: string)
    requires |m| == 1 && a in m && b in m
    ensures a == b
  {
    var rest := m.Keys - {a};
    assert |m.Keys| == |m|;
    assert |rest| == |m.Keys| - 1;
    assert b == a || b in rest;
  }

  /** `Entries` lists each result of the map once, in strictly ascending digest order. */
  lemma EntriesAscending(m: map<string, HashResult>)
    requires forall h :: h in m ==> m[h].hash == h
    ensures var entries := Entries(m);
      && (forall j1, j2 :: 0 <= j1 < j2 < |entries| ==> Less(entries[j1].hash, entries[j2].hash))
      && (forall r :: r in entries <==> r in m.Values)
  {
    var keys := SortedList(m.Keys);
    var entries := Entries(m);
    assert forall j :: 0 <= j < |entries| ==> entries[j] == m[keys[j]] && keys[j] in m;
    forall r | r in m.Values ensures r in entries {
      var h :| h in m && m[h] == r;
      var j :| 0 <= j < |keys| && keys[j] == h;
      assert entries[j] == r;
    }
  }

  /**
   * The read-conflict dispatches are |write roots| rows of |entries| requests: request `j`
   * of row `i` sends entry `j` to write root `i` under its digest-keyed name.
   */
  lemma ReadConflictLayout(writePaths: seq<string>, entries: seq<HashResult>, i: nat, j: nat)
    requires i < |writePaths| && j < |entries|
    ensures i * |entries| + j < |ReadConflictDispatches(writePaths, entries)|
    ensures ReadConflictDispatches(writePaths, entries)[i * |entries| + j]
         == Dispatch(i, CopyFileRequest(entries[j].srcPath,
              ConflictDestPath(writePaths[i], entries[j].srcPath, entries[j].subPath, Some(entries[j].hash), None, ReadMergeConflictType)))
  {
    var rows := ReadConflictRows(writePaths, entries);
    FlattenLayout(rows, |entries|, i, j);
    var requests := ReadConflictRequests(writePaths[i], entries);
    assert rows[i][j] == Dispatch(i, requests[j]);
  }

  /**
   * With several digests, the result is Conflict and every write root receives every
   * distinct copy, in ascending digest order (laid out as `ReadConflictLayout` states).
   */
  lemma HashMergeManyDigests(fs: Fs, writePaths: seq<string>, received: seq<Recv<Option<HashResult>>>, clean: bool)
    requires AllReceived(received) && |FirstByHash(Values(received))| > 1
    ensures var (result, sent) := HashMergePlan(fs, writePaths, received, clean);
      var m := FirstByHash(Values(received));
      var entries := Entries(m);
      && result == Conflict
      && sent == ReadConflictDispatches(writePaths, entries)
      && |sent| == |writePaths| * |m|
      && (forall j1, j2 :: 0 <= j1 < j2 < |entries| ==> Less(entries[j1].hash, entries[j2].hash))
      && (forall r :: r in entries <==> r in m.Values)
  {
    EntriesAscending(FirstByHash(Values(received)));
  }

  /**
   * Within one write root's row the read-conflict destinations are pairwise distinct, as
   * long as the copies share a file name and sub path, as the copies of one discovered file do.
   */
  lemma ReadConflictRowDistinct(channel: nat, writePath: string, entries: seq<HashResult>)
    requires forall j1, j2 :: 0 <= j1 < j2 < |entries| ==> Less(entries[j1].hash, entries[j2].hash)
    requires forall j :: 0 <= j < |entries| ==>
      entries[j].subPath == entries[0].subPath && FileName(entries[j].srcPath) == FileName(entries[0].srcPath)
    ensures var row := ReadConflictRow(channel, writePath, entries);
      forall j1, j2 :: 0 <= j1 < j2 < |row| ==> row[j1].request.destPath != row[j2].request.destPath
  {
    var row := ReadConflictRow(channel, writePath, entries);
    var requests := ReadConflictRequests(writePath, entries);
    forall j1, j2 | 0 <= j1 < j2 < |row|
      ensures row[j1].request.destPath != row[j2].request.destPath
    {
      assert row[j1].request == requests[j1] && row[j2].request == requests[j2];
      LessIrreflexive(entries[j1].hash);
      ConflictDestPathInjective(writePath, entries[j1].srcPath, entries[j2].srcPath, entries[0].subPath,
        ReadMergeConflictType, entries[j1].hash, entries[j2].hash);
    }
  }

  // ---------------------------------------------------------------------------
  // handle_copy

  /**
   * `handle_copy`: an existing destination is never copied over; otherwise a regular
   * source file ends up at the destination. A destination without a parent, or a source
   * that cannot be read as a file, leaves the filesystem as it was.
   */
  function HandleCopy(fs: Fs, request: CopyFileRequest): (r: Fs)
    ensures Exists(fs, request.destPath) ==> r == fs
    ensures forall p :: p != request.destPath ==> (p in r.nodes <==> p in fs.nodes)
    ensures forall p :: p != request.destPath && p in fs.nodes ==> r.nodes[p] == fs.nodes[p]
    ensures r.statFails == fs.statFails && r.listFails == fs.listFails && r.mkdirFails == fs.mkdirFails
    ensures !Exists(fs, request.destPath) && request.destPath != [] && request.destPath != "/" && IsFile(fs, request.srcPath)
      ==> request.destPath in r.nodes && r.nodes[request.destPath] == fs.nodes[request.srcPath]
    ensures request.destPath == [] || request.destPath == "/" || !IsFile(fs, request.srcPath) ==> r == fs
  {
    if Exists(fs, request.destPath) then fs
    // `Path::parent` is None: an invalid destination
    else if request.destPath == [] || request.destPath == "/" then fs
    else match Stat(fs, request.srcPath)
      case Some(File(size, content)) => fs.(nodes := fs.nodes[request.destPath := File(size, content)])
      case _ => fs
  }

  /** Handling the same copy request twice has the effect of handling it once. */
  lemma HandleCopyIdempotent(fs: Fs, request: CopyFileRequest)
    ensures HandleCopy(HandleCopy(fs, request), request) == HandleCopy(fs, request)
  {
  }
}
