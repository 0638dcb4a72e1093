/**
 * The discovery walk of `discover.rs`: all read roots are listed in lock-step, sub path by
 * sub path, over the sorted union of their non-hidden entry names; each name is
 * classified as a file or a directory, and each file yields the requests the other
 * threads act on. The three channels it sends on are modelled as one output sequence
 * of `Sent` messages, in the order they are sent.
 */
module Discover {
  import opened Options
  import opened Ordering
  import opened Seqs
  import opened Paths
  import opened FileSystem
  import opened Message
  import opened Common

  /** One message sent by discovery, tagged with the channel it goes to. */
  datatype Sent =
    | HashQueue(index: nat, hashRequest: Option<HashRequest>)
    | CopyToDestQueue(copyRequest: CopyToDestRequest)
    | TransferQueue(transfer: TransferRequest)

  /** What a walk sent, and the error that stopped it, if any. */
  datatype Run = Run(sent: seq<Sent>, error: Option<DitError>)

  /** The directory listed for a read root: the root itself at the top, else root + "/" + sub path. */
  function DirPath(root: string, subPath: string): string
  {
    if subPath == [] then root else root + "/" + subPath
  }

  /** The sub path of an entry: its name at the top, else sub path + "/" + name. */
  function ChildSubPath(subPath: string, name: string): (r: string)
    ensures |r| > |subPath| || name == []
  {
    if subPath == [] then name else subPath + "/" + name
  }

  /** The entries of a listing that discovery looks at: those not starting with '.'. */
  function Visible(entries: set<Name>): (r: set<string>)
    ensures forall n :: n in r <==> n in entries && n[0] != '.'
    ensures forall n :: n in r ==> VisibleName(n)
  {
    set n | n in entries && n[0] != '.' :: n
  }

  /** The visible names under one read root at a sub path; a root without that directory contributes nothing. */
  function Listing(fs: Fs, root: string, subPath: string): Result<set<string>>
  {
    var dir := DirPath(root, subPath);
    if !IsDir(fs, dir) then Success({})
    else if dir in fs.listFails then Failure(ReadDirFailed(dir))
    else Success(Visible(Stat(fs, dir).value.entries))
  }

  /** The listings of all read roots, in order; the first failing listing stops discovery. */
  function Listings(fs: Fs, readPaths: seq<string>, subPath: string): (r: Result<seq<set<string>>>)
    ensures r.Success? ==> |r.value| == |readPaths| && NamesVisible(r.value)
    decreases |readPaths|
  {
    if readPaths == [] then Success([])
    else
      var n := |readPaths| - 1;
      match Listings(fs, readPaths[..n], subPath)
      case Failure(e) => Failure(e)
      case Success(maps) =>
        match Listing(fs, readPaths[n], subPath)
        case Failure(e) => Failure(e)
        case Success(names) => Success(maps + [names])
  }

  /** A name discovery acts on: a directory entry name that is not hidden. */
  predicate VisibleName(n: string)
  {
    n != [] && n[0] != '.' && '/' !in n
  }

  /** Every listed name is one discovery acts on. */
  predicate NamesVisible(maps: seq<set<string>>)
  {
    forall i, n :: 0 <= i < |maps| && n in maps[i] ==> VisibleName(n)
  }

  /** Every name found under any read root. */
  function UnionOf(maps: seq<set<string>>): (r: set<string>)
    ensures forall n :: n in r <==> exists i :: 0 <= i < |maps| && n in maps[i]
    decreases |maps|
  {
    if maps == [] then {}
    else
      var init := maps[..|maps| - 1];
      assert forall i :: 0 <= i < |init| ==> init[i] == maps[i];
      UnionOf(init) + maps[|maps| - 1]
  }

  /** What a listed name is under one read root. */
  datatype Kind = Absent | DirHere | FileHere

  /**
   * The kind of the entry at `fullPath` for a root whose listing contains (or not) the
   * name: `exists`, then `is_dir`, then `is_file`, as three separate probes.
   */
  function KindAt(fs: Fs, listed: bool, fullPath: string): Kind
  {
    if listed && Exists(fs, fullPath) then
      if IsDir(fs, fullPath) then DirHere
      else if IsFile(fs, fullPath) then FileHere
      else Absent
    else Absent
  }

  /** The kind of the name under read root `i`, whose copy of the name is at `copies[i]`. */
  function KindOf(fs: Fs, maps: seq<set<string>>, name: string, copies: seq<string>, i: nat): Kind
    requires |maps| == |copies| && i < |copies|
  {
    KindAt(fs, name in maps[i], copies[i])
  }

  /** One entry per read root: the full path where the name is a file there, `None` elsewhere. */
  function Placeholders(fs: Fs, maps: seq<set<string>>, name: string, copies: seq<string>): (r: seq<Option<string>>)
    requires |maps| == |copies|
    ensures |r| == |copies|
    ensures forall i :: 0 <= i < |r| ==> (r[i].Some? <==> KindOf(fs, maps, name, copies, i) == FileHere)
    ensures forall i :: 0 <= i < |r| && r[i].Some? ==> r[i].value == copies[i]
  {
    seq(|copies|, i requires 0 <= i < |copies| =>
      if KindOf(fs, maps, name, copies, i) == FileHere then Some(copies[i]) else None)
  }

  /** Some read root has the name as a directory. */
  predicate HasDir(fs: Fs, maps: seq<set<string>>, name: string, copies: seq<string>)
    requires |maps| == |copies|
  {
    exists i :: 0 <= i < |copies| && KindOf(fs, maps, name, copies, i) == DirHere
  }

  /** How many entries are present. */
  function CountSome<T>(s: seq<Option<T>>): (r: nat)
    ensures r <= |s|
    ensures r == 0 <==> forall i :: 0 <= i < |s| ==> s[i].None?
    decreases |s|
  {
    if s == [] then 0
    else
      var init := s[..|s| - 1];
      assert forall i :: 0 <= i < |init| ==> init[i] == s[i];
      CountSome(init) + (if s[|s| - 1].Some? then 1 else 0)
  }

  /** The first present entry. */
  function FirstSome<T>(s: seq<Option<T>>): (r: T)
    requires CountSome(s) > 0
    ensures exists i :: 0 <= i < |s| && s[i] == Some(r) && forall j :: 0 <= j < i ==> s[j].None?
    decreases |s|
  {
    if s[0].Some? then s[0].value
    else
      assert CountSome(s) == CountSome(s[1..]) by { CountSomeCons(s); }
      var r := FirstSome(s[1..]);
      assert forall i :: 1 <= i < |s| ==> s[i] == s[1..][i - 1];
      r
  }

  lemma {:induction false} CountSomeCons<T>(s: seq<Option<T>>)
    requires s != []
    ensures CountSome(s) == CountSome(s[1..]) + (if s[0].Some? then 1 else 0)
    decreases |s|
  {
    if |s| > 1 {
      var init := s[..|s| - 1];
      CountSomeCons(init);
      assert init[1..] == s[1..][..|s| - 2];
    }
  }

  /** A hash request (or a `None` placeholder) to each read root's hash queue, in index order, then one Merge transfer. */
  function HashFrame(files: seq<Option<string>>, subPath: string): (r: seq<Sent>)
    ensures |r| == |files| + 1
  {
    seq(|files|, i requires 0 <= i < |files| =>
      HashQueue(i, if files[i].Some? then Some(HashRequest(subPath, files[i].value)) else None))
    + [TransferQueue(Merge)]
  }

  /** One copy-to-dest request, then one Copy transfer. */
  function CopyFrame(subPath: string, srcPath: string): seq<Sent>
  {
    [CopyToDestQueue(CopyToDestRequest(subPath, srcPath)), TransferQueue(Copy)]
  }

  /** The walk continues with the sent messages of `run` after `before`. */
  function After(before: seq<Sent>, run: Run): Run
  {
    Run(before + run.sent, run.error)
  }

  /** The remaining room for deeper sub paths; it bounds the recursion. */
  ghost function Remaining(fs: Fs, subPath: string): nat
  {
    if |subPath| <= MaxPathLen(fs.nodes.Keys) then MaxPathLen(fs.nodes.Keys) - |subPath| else 0
  }

  /** A directory found under a read root has a sub path no longer than the longest path of the filesystem. */
  lemma DirChildIsBounded(fs: Fs, readPaths: seq<string>, next: string, i: nat)
    requires i < |readPaths| && IsDir(fs, CopyPaths(readPaths, next)[i])
    ensures |next| <= MaxPathLen(fs.nodes.Keys)
  {
    JoinKeepsParts(readPaths[i], next);
    assert CopyPaths(readPaths, next)[i] == Join(readPaths[i], next);
  }

  /** The walk of the directory at `subPath` in every read root. */
  ghost function PlanDir(fs: Fs, readPaths: seq<string>, writePaths: seq<string>, subPath: string): Run
    decreases Remaining(fs, subPath), 2, 0
  {
    match Listings(fs, readPaths, subPath)
    case Failure(e) => Run([], Some(e))
    case Success(maps) =>
      SortedNamesVisible(maps);
      PlanNames(fs, readPaths, writePaths, subPath, maps, SortedList(UnionOf(maps)))
  }

  /** The union of visible listings, in order, holds only visible names. */
  lemma SortedNamesVisible(maps: seq<set<string>>)
    requires NamesVisible(maps)
    ensures forall k :: 0 <= k < |SortedList(UnionOf(maps))| ==> VisibleName(SortedList(UnionOf(maps))[k])
  {
    var all := UnionOf(maps);
    var names := SortedList(all);
    forall k | 0 <= k < |names|
      ensures VisibleName(names[k])
    {
      var n := names[k];
      assert n in all;
      var i :| 0 <= i < |maps| && n in maps[i];
    }
  }

  /** The names in order, stopping at the first error. */
  ghost function PlanNames(fs: Fs, readPaths: seq<string>, writePaths: seq<string>, subPath: string,
                           maps: seq<set<string>>, names: seq<string>): Run
    requires |maps| == |readPaths| && forall k :: 0 <= k < |names| ==> VisibleName(names[k])
    decreases Remaining(fs, subPath), 1, |names|
  {
    if names == [] then Run([], None)
    else
      var first := PlanName(fs, readPaths, writePaths, subPath, maps, names[0]);
      if first.error.Some? then first
      else After(first.sent, PlanNames(fs, readPaths, writePaths, subPath, maps, names[1..]))
  }

  /** One name: an error if it is both a file and a directory or neither; the file's requests; or the walk below it. */
  ghost function PlanName(fs: Fs, readPaths: seq<string>, writePaths: seq<string>, subPath: string,
                          maps: seq<set<string>>, name: string): Run
    requires |maps| == |readPaths| && VisibleName(name)
    decreases Remaining(fs, subPath), 0, 0
  {
    var next := ChildSubPath(subPath, name);
    var copies := CopyPaths(readPaths, next);
    var files := Placeholders(fs, maps, name, copies);
    var isFile := CountSome(files) > 0;
    var isDir := HasDir(fs, maps, name, copies);
    if isFile && isDir then Run([], Some(FileAndDir(next)))
    else if !isFile && !isDir then Run([], Some(NotFileOrDir(next)))
    else if isFile then
      if AllFilesMatchSpec(fs, readPaths, writePaths, next) then Run([], None)
      else if CountSome(files) > 1 then Run(HashFrame(files, next), None)
      else Run(CopyFrame(next, FirstSome(files)), None)
    else
      var i :| 0 <= i < |copies| && KindOf(fs, maps, name, copies, i) == DirHere;
      DirChildIsBounded(fs, readPaths, next, i);
      PlanDir(fs, readPaths, writePaths, next)
  }

  /** The whole discovery: nothing at all when the run has already been stopped. */
  ghost function PlanDiscovery(fs: Fs, readPaths: seq<string>, writePaths: seq<string>, running: bool): Run
  {
    if !running then Run([], None) else PlanDir(fs, readPaths, writePaths, [])
  }

  /** `discover_files`: the walk from the top of every read root. */
  method DiscoverFiles(fs: Fs, readPaths: seq<string>, writePaths: seq<string>, running: bool)
    returns (sent: seq<Sent>, error: Option<DitError>)
    ensures Run(sent, error) == PlanDiscovery(fs, readPaths, writePaths, running)
  {
    if !running {
      // something else already stopped the run: stop quietly
      return [], None;
    }
    sent, error := DiscoverDir(fs, readPaths, writePaths, []);
  }

  /** `__discover_files` for one sub path: list every read root, then handle each name in sorted order. */
  method DiscoverDir(fs: Fs, readPaths: seq<string>, writePaths: seq<string>, subPath: string)
    returns (sent: seq<Sent>, error: Option<DitError>)
    ensures Run(sent, error) == PlanDir(fs, readPaths, writePaths, subPath)
    decreases Remaining(fs, subPath), 2, 0
  {
    var listed, allNames := ListRoots(fs, readPaths, subPath);
    if listed.Failure? {
      return [], Some(listed.error);
    }
    SortedNamesVisible(listed.value);
    sent, error := DiscoverNames(fs, readPaths, writePaths, subPath, listed.value, allNames);
  }

  /**
   * The first loop of `__discover_files`: one name set per read root, and the union of
   * all of them in ascending order (a `BTreeSet`).
   */
  method ListRoots(fs: Fs, readPaths: seq<string>, subPath: string)
    returns (listed: Result<seq<set<string>>>, allNames: seq<string>)
    ensures listed == Listings(fs, readPaths, subPath)
    ensures listed.Success? ==> allNames == SortedList(UnionOf(listed.value))
  {
    allNames := [];
    var maps: seq<set<string>> := [];
    for i := 0 to |readPaths|
      invariant Listings(fs, readPaths[..i], subPath) == Success(maps)
      invariant StrictlySorted(allNames) && forall n :: n in allNames <==> n in UnionOf(maps)
    {
      assert readPaths[..i + 1][..i] == readPaths[..i];
      var direntMap;
      direntMap, allNames := ListRoot(fs, readPaths[i], subPath, allNames);
      if direntMap.Failure? {
        ListingsStop(fs, readPaths, subPath, i + 1);
        return Failure(direntMap.error), allNames;
      }
      UnionOfSnoc(maps, direntMap.value);
      maps := maps + [direntMap.value];
    }
    assert readPaths[..|readPaths|] == readPaths;
    SortedUnique(allNames, SortedList(UnionOf(maps)));
    listed := Success(maps);
  }

  /** The names of one listing join the union. */
  lemma UnionOfSnoc(maps: seq<set<string>>, names: set<string>)
    ensures UnionOf(maps + [names]) == UnionOf(maps) + names
  {
    var all := maps + [names];
    forall n | n in UnionOf(maps)
      ensures n in UnionOf(all)
    {
      var i :| 0 <= i < |maps| && n in maps[i];
      assert all[i] == maps[i];
    }
    assert all[|maps|] == names;
    forall n | n in UnionOf(all)
      ensures n in UnionOf(maps) + names
    {
      var i :| 0 <= i < |all| && n in all[i];
      if i < |maps| {
        assert all[i] == maps[i];
      }
    }
  }

  /**
   * One read root in the first loop: a missing directory lists nothing, a failing
   * listing is an error, and every visible name joins both the root's set and the
   * sorted union.
   */
  method ListRoot(fs: Fs, root: string, subPath: string, allNames: seq<string>)
    returns (direntMap: Result<set<string>>, allNames': seq<string>)
    requires StrictlySorted(allNames)
    ensures direntMap == Listing(fs, root, subPath)
    ensures StrictlySorted(allNames')
    ensures direntMap.Success? ==> forall n :: n in allNames' <==> n in allNames || n in direntMap.value
  {
    allNames' := allNames;
    var names: set<string> := {};
    var dir := DirPath(root, subPath);
    if IsDir(fs, dir) {
      if dir in fs.listFails {
        return Failure(ReadDirFailed(dir)), allNames';
      }
      var entries := Stat(fs, dir).value.entries;
      var remaining := entries;
      while remaining != {}
        invariant remaining <= entries
        invariant forall n :: n in names <==> n in entries && n !in remaining && n[0] != '.'
        invariant StrictlySorted(allNames') && forall n :: n in allNames' <==> n in allNames || n in names
        decreases |remaining|
      {
        var name :| name in remaining;
        remaining := remaining - {name};
        // hidden files and directories are skipped
        if name[0] != '.' {
          allNames' := InsertSorted(allNames', name);
          names := names + {name};
        }
      }
      assert names == Visible(entries);
    }
    direntMap := Success(names);
  }

  /** The second loop of `__discover_files`: each name in turn, stopping at the first error. */
  method DiscoverNames(fs: Fs, readPaths: seq<string>, writePaths: seq<string>, subPath: string,
                       maps: seq<set<string>>, names: seq<string>)
    returns (sent: seq<Sent>, error: Option<DitError>)
    requires |maps| == |readPaths| && forall k :: 0 <= k < |names| ==> VisibleName(names[k])
    ensures Run(sent, error) == PlanNames(fs, readPaths, writePaths, subPath, maps, names)
    decreases Remaining(fs, subPath), 1, |names|
  {
    sent := [];
    for k := 0 to |names|
      invariant PlanNames(fs, readPaths, writePaths, subPath, maps, names)
             == After(sent, PlanNames(fs, readPaths, writePaths, subPath, maps, names[k..]))
    {
      assert names[k..][1..] == names[k + 1..];
      var nameSent, nameError := DiscoverName(fs, readPaths, writePaths, subPath, maps, names[k]);
      if nameError.Some? {
        return sent + nameSent, nameError;
      }
      sent := sent + nameSent;
    }
    assert names[|names|..] == [];
    return sent, None;
  }

  /** Once a prefix of the roots has a failing listing, so has the whole list. */
  lemma {:induction false} ListingsStop(fs: Fs, readPaths: seq<string>, subPath: string, n: nat)
    requires n <= |readPaths| && Listings(fs, readPaths[..n], subPath).Failure?
    ensures Listings(fs, readPaths, subPath) == Listings(fs, readPaths[..n], subPath)
    decreases |readPaths| - n
  {
    if n < |readPaths| {
      assert readPaths[..n + 1][..n] == readPaths[..n];
      ListingsStop(fs, readPaths, subPath, n + 1);
    } else {
      assert readPaths[..n] == readPaths;
    }
  }

  /** The body of the loop over names in `__discover_files`: classify one name under every root and act on it. */
  method DiscoverName(fs: Fs, readPaths: seq<string>, writePaths: seq<string>, subPath: string,
                      maps: seq<set<string>>, name: string)
    returns (sent: seq<Sent>, error: Option<DitError>)
    requires |maps| == |readPaths| && VisibleName(name)
    ensures Run(sent, error) == PlanName(fs, readPaths, writePaths, subPath, maps, name)
    decreases Remaining(fs, subPath), 0, 0
  {
    var next := ChildSubPath(subPath, name);
    var copies := CopyPaths(readPaths, next);
    var files, isDir, actualFilesFound, dirIdx := ClassifyName(fs, maps, name, copies);
    var isFile := actualFilesFound > 0;
    if isFile && isDir {
      return [], Some(FileAndDir(next));
    }
    if !isFile && !isDir {
      return [], Some(NotFileOrDir(next));
    }
    if isFile {
      SomeReadCopyOfFile(fs, readPaths, maps, next, name);
      var matched := AllFilesMatch(fs, readPaths, writePaths, next);
      if matched {
        // every copy is already in place: nothing to send
        return [], None;
      }
      if actualFilesFound > 1 {
        sent := SendHashRequests(files, next);
      } else {
        sent := SendCopyRequest(files, next);
      }
      return sent, None;
    }
    DirChildIsBounded(fs, readPaths, next, dirIdx);
    sent, error := DiscoverDir(fs, readPaths, writePaths, next);
  }

  /**
   * The loop over read roots for one name: the full path where it is a file under each
   * root (or `None`), whether it is a directory under some root (and one such root),
   * and how many files were found.
   */
  method ClassifyName(fs: Fs, maps: seq<set<string>>, name: string, copies: seq<string>)
    returns (files: seq<Option<string>>, isDir: bool, actualFilesFound: nat, ghost dirIdx: nat)
    requires |maps| == |copies|
    ensures files == Placeholders(fs, maps, name, copies)
    ensures actualFilesFound == CountSome(files)
    ensures isDir == HasDir(fs, maps, name, copies)
    ensures isDir ==> dirIdx < |copies| && KindOf(fs, maps, name, copies, dirIdx) == DirHere
  {
    ghost var planned := Placeholders(fs, maps, name, copies);
    isDir := false;
    files := [];
    actualFilesFound := 0;
    dirIdx := 0;
    for i := 0 to |copies|
      invariant files == planned[..i]
      invariant actualFilesFound == CountSome(files)
      invariant isDir ==> dirIdx < |copies| && KindOf(fs, maps, name, copies, dirIdx) == DirHere
      invariant !isDir ==> forall j :: 0 <= j < i ==> KindOf(fs, maps, name, copies, j) != DirHere
    {
      var kind := ProbeRoot(fs, name in maps[i], copies[i]);
      assert kind == KindOf(fs, maps, name, copies, i);
      if kind == DirHere {
        isDir := true;
        dirIdx := i;
      }
      var entry := if kind == FileHere then Some(copies[i]) else None;
      if kind == FileHere {
        actualFilesFound := actualFilesFound + 1;
      }
      assert entry == planned[i];
      CountSomeSnoc(files, entry);
      PrefixSnoc(planned, i);
      files := files + [entry];
    }
    assert planned[..|copies|] == planned;
  }

  /** The three probes of one root's copy: `exists`, then `is_dir`, then `is_file`. */
  method ProbeRoot(fs: Fs, listed: bool, fullPath: string) returns (kind: Kind)
    ensures kind == KindAt(fs, listed, fullPath)
  {
    kind := Absent;
    if listed && Exists(fs, fullPath) {
      if IsDir(fs, fullPath) {
        kind := DirHere;
      } else if IsFile(fs, fullPath) {
        kind := FileHere;
      }
    }
  }

  /** Appending an entry counts it when present. */
  lemma CountSomeSnoc<T>(s: seq<Option<T>>, x: Option<T>)
    ensures CountSome(s + [x]) == CountSome(s) + (if x.Some? then 1 else 0)
  {
    assert (s + [x])[..|s|] == s;
  }

  /** The hash branch: a request or placeholder to every hash queue, then one Merge transfer. */
  method SendHashRequests(files: seq<Option<string>>, subPath: string) returns (sent: seq<Sent>)
    ensures sent == HashFrame(files, subPath)
  {
    sent := [];
    for i := 0 to |files|
      invariant sent == HashFrame(files, subPath)[..i]
    {
      var message := if files[i].Some? then HashQueue(i, Some(HashRequest(subPath, files[i].value))) else HashQueue(i, None);
      PrefixSnoc(HashFrame(files, subPath), i);
      sent := sent + [message];
    }
    sent := sent + [TransferQueue(Merge)];
  }

  /** The single-file branch: the first file found goes to the copy-to-dest queue, then one Copy transfer. */
  method SendCopyRequest(files: seq<Option<string>>, subPath: string) returns (sent: seq<Sent>)
    requires CountSome(files) > 0
    ensures sent == CopyFrame(subPath, FirstSome(files))
  {
    var i := 0;
    while i < |files|
      invariant i <= |files| && forall j :: 0 <= j < i ==> files[j].None?
    {
      if files[i].Some? {
        FirstSomeAt(files, i);
        return CopyFrame(subPath, files[i].value);
      }
      i := i + 1;
    }
    assert false;
  }

  /** A name found as a file somewhere has an existing copy in some read root. */
  lemma SomeReadCopyOfFile(fs: Fs, readPaths: seq<string>, maps: seq<set<string>>, next: string, name: string)
    requires |maps| == |readPaths|
    requires CountSome(Placeholders(fs, maps, name, CopyPaths(readPaths, next))) > 0
    ensures SomeReadCopy(fs, readPaths, next)
  {
    var copies := CopyPaths(readPaths, next);
    var files := Placeholders(fs, maps, name, copies);
    var i :| 0 <= i < |files| && files[i].Some?;
    assert Exists(fs, copies[i]);
  }

  /** The first present entry is the one before which all are absent. */
  lemma FirstSomeAt<T>(s: seq<Option<T>>, i: nat)
    requires i < |s| && s[i].Some? && forall j :: 0 <= j < i ==> s[j].None?
    ensures CountSome(s) > 0 && FirstSome(s) == s[i].value
  {
    assert s[i].Some?;
    var k :| 0 <= k < |s| && s[k] == Some(FirstSome(s)) && forall j :: 0 <= j < k ==> s[j].None?;
    assert k == i;
  }

  /** A visible name at the top or below a sub path gives a sub path (no component hidden, empty or ending in '/'). */
  lemma ChildIsSubPath(subPath: string, name: string)
    requires subPath == [] || IsSubPath(subPath)
    requires VisibleName(name)
    ensures IsSubPath(ChildSubPath(subPath, name))
  {
    var p := ChildSubPath(subPath, name);
    var d := if subPath == [] then [] else subPath + "/";
    assert p == d + name;
    assert p[|p| - 1] == name[|name| - 1] && name[|name| - 1] in name;
    forall i | 0 <= i < |p| - 1
      ensures ComponentStartOk(p, i)
    {
      if i < |subPath| {
        assert p[i] == subPath[i];
        if i < |subPath| - 1 {
          assert p[i + 1] == subPath[i + 1] && ComponentStartOk(subPath, i);
        }
      } else if i >= |d| {
        assert p[i] == name[i - |d|] && name[i - |d|] in name;
      } else {
        assert p[i + 1] == name[0];
      }
    }
  }

  /**
   * What every message of discovery satisfies: a hash request on queue `i` names a
   * sub path and the copy of it under read root `i`; a copy-to-dest request
   * names a sub path and its copy under some read root.
   */
  predicate MessageOk(m: Sent, readPaths: seq<string>)
  {
    match m
    case HashQueue(i, request) =>
      i < |readPaths| &&
      (request.Some? ==>
        IsSubPath(request.value.subPath) && request.value.srcPath == CopyPaths(readPaths, request.value.subPath)[i])
    case CopyToDestQueue(request) =>
      IsSubPath(request.subPath) &&
      exists i :: 0 <= i < |readPaths| && request.srcPath == CopyPaths(readPaths, request.subPath)[i]
    case TransferQueue(_) => true
  }

  predicate MessagesOk(sent: seq<Sent>, readPaths: seq<string>)
  {
    forall k :: 0 <= k < |sent| ==> MessageOk(sent[k], readPaths)
  }

  /**
   * The messages split into whole frames, as the merge side reads them: either one
   * copy-to-dest request followed by a Copy transfer, or one message on each of the
   * `roots` hash queues in index order followed by a Merge transfer.
   */
  predicate Framed(sent: seq<Sent>, roots: nat)
    decreases |sent|
  {
    if sent == [] then true
    else if |sent| >= 2 && sent[0].CopyToDestQueue? && sent[1] == TransferQueue(Copy) then Framed(sent[2..], roots)
    else
      |sent| > roots &&
      (forall i :: 0 <= i < roots ==> sent[i].HashQueue? && sent[i].index == i) &&
      sent[roots] == TransferQueue(Merge) &&
      Framed(sent[roots + 1..], roots)
  }

  /** Whole frames followed by whole frames are whole frames. */
  lemma {:induction false} FramedAppend(a: seq<Sent>, b: seq<Sent>, roots: nat)
    requires Framed(a, roots) && Framed(b, roots)
    ensures Framed(a + b, roots)
    decreases |a|
  {
    if a == [] {
      assert a + b == b;
    } else if |a| >= 2 && a[0].CopyToDestQueue? && a[1] == TransferQueue(Copy) {
      assert (a + b)[2..] == a[2..] + b;
      FramedAppend(a[2..], b, roots);
    } else {
      assert (a + b)[roots + 1..] == a[roots + 1..] + b;
      assert forall i :: 0 <= i <= roots ==> (a + b)[i] == a[i];
      FramedAppend(a[roots + 1..], b, roots);
    }
  }

  /** A hash frame is one whole frame. */
  lemma HashFrameIsFramed(files: seq<Option<string>>, subPath: string)
    ensures Framed(HashFrame(files, subPath), |files|)
  {
    var f := HashFrame(files, subPath);
    assert f[|files| + 1..] == [];
  }

  /** A copy frame is one whole frame. */
  lemma CopyFrameIsFramed(subPath: string, srcPath: string, roots: nat)
    ensures Framed(CopyFrame(subPath, srcPath), roots)
  {
    assert CopyFrame(subPath, srcPath)[2..] == [];
  }

  /** The messages planned for a directory come in whole frames, each message well-formed. */
  lemma {:induction false} PlanDirShape(fs: Fs, readPaths: seq<string>, writePaths: seq<string>, subPath: string)
    requires subPath == [] || IsSubPath(subPath)
    ensures Framed(PlanDir(fs, readPaths, writePaths, subPath).sent, |readPaths|)
    ensures MessagesOk(PlanDir(fs, readPaths, writePaths, subPath).sent, readPaths)
    decreases Remaining(fs, subPath), 2, 0
  {
    match Listings(fs, readPaths, subPath)
    case Failure(e) =>
    case Success(maps) =>
      var names := SortedList(UnionOf(maps));
      SortedNamesVisible(maps);
      assert PlanDir(fs, readPaths, writePaths, subPath) == PlanNames(fs, readPaths, writePaths, subPath, maps, names);
      PlanNamesShape(fs, readPaths, writePaths, subPath, maps, names);
  }

  lemma {:induction false} PlanNamesShape(fs: Fs, readPaths: seq<string>, writePaths: seq<string>, subPath: string,
                                          maps: seq<set<string>>, names: seq<string>)
    requires |maps| == |readPaths| && forall k :: 0 <= k < |names| ==> VisibleName(names[k])
    requires subPath == [] || IsSubPath(subPath)
    ensures Framed(PlanNames(fs, readPaths, writePaths, subPath, maps, names).sent, |readPaths|)
    ensures MessagesOk(PlanNames(fs, readPaths, writePaths, subPath, maps, names).sent, readPaths)
    decreases Remaining(fs, subPath), 1, |names|
  {
    if names != [] {
      var first := PlanName(fs, readPaths, writePaths, subPath, maps, names[0]);
      PlanNameShape(fs, readPaths, writePaths, subPath, maps, names[0]);
      if first.error.None? {
        var rest := PlanNames(fs, readPaths, writePaths, subPath, maps, names[1..]);
        assert PlanNames(fs, readPaths, writePaths, subPath, maps, names).sent == first.sent + rest.sent;
        PlanNamesShape(fs, readPaths, writePaths, subPath, maps, names[1..]);
        FramedAppend(first.sent, rest.sent, |readPaths|);
        MessagesOkAppend(first.sent, rest.sent, readPaths);
      }
    }
  }

  lemma MessagesOkAppend(a: seq<Sent>, b: seq<Sent>, readPaths: seq<string>)
    requires MessagesOk(a, readPaths) && MessagesOk(b, readPaths)
    ensures MessagesOk(a + b, readPaths)
  {
    forall k | 0 <= k < |a + b|
      ensures MessageOk((a + b)[k], readPaths)
    {
      if k >= |a| {
        assert (a + b)[k] == b[k - |a|];
      }
    }
  }

  lemma {:induction false} PlanNameShape(fs: Fs, readPaths: seq<string>, writePaths: seq<string>, subPath: string,
                                         maps: seq<set<string>>, name: string)
    requires |maps| == |readPaths| && VisibleName(name)
    requires subPath == [] || IsSubPath(subPath)
    ensures Framed(PlanName(fs, readPaths, writePaths, subPath, maps, name).sent, |readPaths|)
    ensures MessagesOk(PlanName(fs, readPaths, writePaths, subPath, maps, name).sent, readPaths)
    decreases Remaining(fs, subPath), 0, 0
  {
    var r := PlanName(fs, readPaths, writePaths, subPath, maps, name);
    var next := ChildSubPath(subPath, name);
    ChildIsSubPath(subPath, name);
    var copies := CopyPaths(readPaths, next);
    var files := Placeholders(fs, maps, name, copies);
    var isFile := CountSome(files) > 0;
    var isDir := HasDir(fs, maps, name, copies);
    if isFile && !isDir && !AllFilesMatchSpec(fs, readPaths, writePaths, next) {
      if CountSome(files) > 1 {
        assert r.sent == HashFrame(files, next);
        HashFrameShape(readPaths, next, maps, name, files);
      } else {
        assert r.sent == CopyFrame(next, FirstSome(files));
        CopyFrameShape(readPaths, next, maps, name, files);
      }
    } else if isDir && !isFile {
      var i :| 0 <= i < |copies| && KindOf(fs, maps, name, copies, i) == DirHere;
      DirChildIsBounded(fs, readPaths, next, i);
      assert r == PlanDir(fs, readPaths, writePaths, next);
      PlanDirShape(fs, readPaths, writePaths, next);
    } else {
      assert r.sent == [];
    }
  }

  /** The hash requests for a sub path name each root's own copy. */
  lemma HashFrameShape(readPaths: seq<string>, next: string, maps: seq<set<string>>, name: string, files: seq<Option<string>>)
    requires IsSubPath(next) && |files| == |readPaths|
    requires forall i :: 0 <= i < |files| && files[i].Some? ==> files[i].value == CopyPaths(readPaths, next)[i]
    ensures Framed(HashFrame(files, next), |readPaths|)
    ensures MessagesOk(HashFrame(files, next), readPaths)
  {
    HashFrameIsFramed(files, next);
    var f := HashFrame(files, next);
    forall k | 0 <= k < |f|
      ensures MessageOk(f[k], readPaths)
    {
      if k < |files| && files[k].Some? {
        assert f[k] == HashQueue(k, Some(HashRequest(next, files[k].value)));
      }
    }
  }

  /** The copy-to-dest request for a sub path names the copy under some root. */
  lemma CopyFrameShape(readPaths: seq<string>, next: string, maps: seq<set<string>>, name: string, files: seq<Option<string>>)
    requires IsSubPath(next) && |files| == |readPaths| && CountSome(files) > 0
    requires forall i :: 0 <= i < |files| && files[i].Some? ==> files[i].value == CopyPaths(readPaths, next)[i]
    ensures Framed(CopyFrame(next, FirstSome(files)), |readPaths|)
    ensures MessagesOk(CopyFrame(next, FirstSome(files)), readPaths)
  {
    var src := FirstSome(files);
    CopyFrameIsFramed(next, src, |readPaths|);
    var i :| 0 <= i < |files| && files[i] == Some(src);
    CopyRequestOk(readPaths, next, src, i);
  }

  /** A copy frame naming the copy under root `i` holds well-formed messages. */
  lemma CopyRequestOk(readPaths: seq<string>, next: string, src: string, i: nat)
    requires IsSubPath(next) && i < |readPaths| && src == CopyPaths(readPaths, next)[i]
    ensures MessagesOk(CopyFrame(next, src), readPaths)
  {
    var request := CopyToDestRequest(next, src);
    assert MessageOk(CopyToDestQueue(request), readPaths);
    assert CopyFrame(next, src) == [CopyToDestQueue(request), TransferQueue(Copy)];
  }

  /** Every message of the whole discovery comes in whole frames and is well-formed. */
  lemma PlanDiscoveryShape(fs: Fs, readPaths: seq<string>, writePaths: seq<string>, running: bool)
    ensures Framed(PlanDiscovery(fs, readPaths, writePaths, running).sent, |readPaths|)
    ensures MessagesOk(PlanDiscovery(fs, readPaths, writePaths, running).sent, readPaths)
  {
    if running {
      PlanDirShape(fs, readPaths, writePaths, []);
    }
  }
}
