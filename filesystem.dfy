/**
 * The filesystem the program observes, as a value. `exists()` and `metadata()` are two
 * separate probes in the source, so a path can be present while its metadata cannot be
 * read (a file removed or made unreadable in between): `statFails` holds those paths.
 * Directory listings are kept in the directory nodes, so a listed name need not be
 * present at its full path either. `listFails` are directories whose `read_dir` fails and
 * `mkdirFails` are paths whose non-recursive `mkdir` fails.
 */
module FileSystem {
  import opened Options

  /** A directory entry name as `read_dir` returns it: non-empty, without a separator. */
  type Name = s: string | s != [] && '/' !in s witness "a"

  datatype Node =
    | Dir(size: nat, entries: set<Name>)
    | File(size: nat, content: seq<bv8>)
    | Special(size: nat)  // socket, fifo, device: neither a file nor a directory

  datatype Fs = Fs(nodes: map<string, Node>, statFails: set<string>, listFails: set<string>, mkdirFails: set<string>)

  /** The size `metadata()` reports for a directory created by `mkdir`. */
  const NewDirSize: nat := 4096

  /** `Path::exists`. */
  predicate Exists(fs: Fs, p: string)
  {
    p in fs.nodes
  }

  /** `Path::metadata`: `None` when it fails. */
  function Stat(fs: Fs, p: string): (r: Option<Node>)
    ensures r.Some? ==> Exists(fs, p) && r.value == fs.nodes[p]
    ensures r.None? <==> !Exists(fs, p) || p in fs.statFails
  {
    if p in fs.nodes && p !in fs.statFails then Some(fs.nodes[p]) else None
  }

  /** `metadata().len()`, the size compared throughout. */
  function SizeOf(fs: Fs, p: string): (r: Option<nat>)
    ensures r.Some? <==> Stat(fs, p).Some?
    ensures r.Some? ==> r.value == fs.nodes[p].size
  {
    match Stat(fs, p)
    case None => None
    case Some(n) => Some(n.size)
  }

  predicate IsDir(fs: Fs, p: string)
  {
    Stat(fs, p).Some? && Stat(fs, p).value.Dir?
  }

  predicate IsFile(fs: Fs, p: string)
  {
    Stat(fs, p).Some? && Stat(fs, p).value.File?
  }

  /** Non-recursive `mkdir`: adds one empty directory, or fails. */
  function Mkdir(fs: Fs, p: string): (r: Option<Fs>)
    ensures r.Some? ==> !Exists(fs, p) && p !in fs.mkdirFails
    ensures r.Some? ==> IsDir(r.value, p) && r.value.nodes == fs.nodes[p := Dir(NewDirSize, {})]
    ensures r.Some? ==> r.value.statFails == fs.statFails - {p} && r.value.listFails == fs.listFails && r.value.mkdirFails == fs.mkdirFails
  {
    if Exists(fs, p) || p in fs.mkdirFails then None
    else Some(fs.(nodes := fs.nodes[p := Dir(NewDirSize, {})], statFails := fs.statFails - {p}))
  }

  /** A bound on the length of every path present; discovery never descends past it. */
  ghost function MaxPathLen(keys: set<string>): (m: nat)
    ensures forall k :: k in keys ==> |k| <= m
    decreases |keys|
  {
    if keys == {} then 0
    else
      var k :| k in keys;
      var rest := MaxPathLen(keys - {k});
      if |k| > rest then |k| else rest
  }
}
