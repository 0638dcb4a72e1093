/**
 * The command-line parser of `api.rs` (`get_cli_read_write_paths`): the arguments after
 * the program name are read left to right; the keywords "read" and "write" switch the
 * list that following arguments go to, and every other argument, with one trailing '/'
 * removed, is appended to the list currently selected (or dropped before any keyword).
 */
module Api {
  import opened Common

  const ReadKeyword := "read"
  const WriteKeyword := "write"

  predicate IsKeyword(s: string)
  {
    s == ReadKeyword || s == WriteKeyword
  }

  /** The list an argument goes to: none before the first keyword, else the last keyword's. */
  datatype Mode = Dropped | ReadMode | WriteMode

  /**
   * An argument with one trailing '/' removed; the root "/" itself is kept, so that it
   * can be refused later.
   */
  function Strip(s: string): (r: string)
    ensures s == "/" ==> r == "/"
    ensures |s| > 1 && s[|s| - 1] == '/' ==> r + "/" == s
    ensures !(|s| > 1 && s[|s| - 1] == '/') ==> r == s
  {
    if |s| > 1 && s[|s| - 1] == '/' then s[..|s| - 1] else s
  }

  /** The mode in force after the arguments `prefix`: set by the last keyword among them. */
  function ModeAfter(prefix: seq<string>): (m: Mode)
    ensures m == Dropped <==> forall k :: 0 <= k < |prefix| ==> !IsKeyword(prefix[k])
    decreases |prefix|
  {
    if prefix == [] then Dropped
    else
      var last := prefix[|prefix| - 1];
      var init := prefix[..|prefix| - 1];
      assert forall k :: 0 <= k < |init| ==> init[k] == prefix[k];
      if last == ReadKeyword then ReadMode
      else if last == WriteKeyword then WriteMode
      else ModeAfter(init)
  }

  /** The non-keyword arguments that go to the list `mode`, stripped, in argument order. */
  function Routed(args: seq<string>, mode: Mode): seq<string>
    decreases |args|
  {
    if args == [] then []
    else
      var init := args[..|args| - 1];
      var last := args[|args| - 1];
      Routed(init, mode) + (if !IsKeyword(last) && ModeAfter(init) == mode then [Strip(last)] else [])
  }

  /** How many arguments are keywords. */
  function KeywordCount(args: seq<string>): nat
    decreases |args|
  {
    if args == [] then 0
    else KeywordCount(args[..|args| - 1]) + (if IsKeyword(args[|args| - 1]) then 1 else 0)
  }

  /**
   * `get_cli_read_write_paths`: the arguments routed to the read and write lists; an
   * empty read list is an error, checked before the write list.
   */
  method GetCliReadWritePaths(args: seq<string>) returns (r: Result<ReadWritePaths>)
    ensures Routed(args, ReadMode) == [] ==> r == Failure(NoReadPath)
    ensures Routed(args, ReadMode) != [] && Routed(args, WriteMode) == [] ==> r == Failure(NoWritePath)
    ensures Routed(args, ReadMode) != [] && Routed(args, WriteMode) != [] ==>
      r == Success(ReadWritePaths(Routed(args, ReadMode), Routed(args, WriteMode)))
  {
    var readPaths: seq<string> := [];
    var writePaths: seq<string> := [];
    var setRead := false;
    var setWrite := false;
    for i := 0 to |args|
      invariant setRead <==> ModeAfter(args[..i]) == ReadMode
      invariant setWrite <==> ModeAfter(args[..i]) == WriteMode
      invariant readPaths == Routed(args[..i], ReadMode)
      invariant writePaths == Routed(args[..i], WriteMode)
    {
      var s := args[i];
      assert args[..i + 1][..i] == args[..i] && args[..i + 1][i] == s;
      if s == ReadKeyword {
        setRead := true;
        setWrite := false;
        continue;
      }
      if s == WriteKeyword {
        setRead := false;
        setWrite := true;
        continue;
      }
      var path := Strip(s);
      if setRead {
        readPaths := readPaths + [path];
      }
      if setWrite {
        writePaths := writePaths + [path];
      }
    }
    assert args[..|args|] == args;
    if |readPaths| < 1 {
      return Failure(NoReadPath);
    }
    if |writePaths| < 1 {
      return Failure(NoWritePath);
    }
    return Success(ReadWritePaths(readPaths, writePaths));
  }

  /** Every argument is a keyword or lands in exactly one of the three lists (read, write, dropped). */
  lemma {:induction false} EveryArgumentCounted(args: seq<string>)
    ensures |Routed(args, ReadMode)| + |Routed(args, WriteMode)| + |Routed(args, Dropped)| + KeywordCount(args) == |args|
    decreases |args|
  {
    if args != [] {
      EveryArgumentCounted(args[..|args| - 1]);
    }
  }

  /** The arguments routed so far stay at the front of the list: later arguments only append. */
  lemma {:induction false} RoutedPrefix(args: seq<string>, n: nat, mode: Mode)
    requires n <= |args|
    ensures Routed(args[..n], mode) <= Routed(args, mode)
    decreases |args| - n
  {
    if n < |args| {
      RoutedPrefix(args, n + 1, mode);
      assert args[..n + 1][..n] == args[..n];
    } else {
      assert args[..n] == args;
    }
  }

  /**
   * A non-keyword argument whose mode is `mode` appears, stripped, in that list right after
   * the ones routed before it: lists keep the arguments' order.
   */
  lemma ArgumentPosition(args: seq<string>, k: nat, mode: Mode)
    requires k < |args| && !IsKeyword(args[k]) && ModeAfter(args[..k]) == mode
    ensures |Routed(args[..k], mode)| < |Routed(args, mode)|
    ensures Routed(args, mode)[|Routed(args[..k], mode)|] == Strip(args[k])
  {
    RoutedPrefix(args, k + 1, mode);
    assert args[..k + 1][..k] == args[..k];
  }

  /** Nothing before the first keyword is recorded as a read or write path. */
  lemma {:induction false} LeadingArgumentsDropped(args: seq<string>, mode: Mode)
    requires mode != Dropped && ModeAfter(args) == Dropped
    ensures Routed(args, mode) == []
    decreases |args|
  {
    if args != [] {
      var init := args[..|args| - 1];
      assert forall k :: 0 <= k < |init| ==> init[k] == args[k];
      LeadingArgumentsDropped(init, mode);
    }
  }

  /** The keyword test is made before stripping: "read/" is the read path "read". */
  lemma KeywordWithSlashIsAPath()
    ensures Routed(["read", "read/", "write", "w/"], ReadMode) == ["read"]
    ensures Routed(["read", "read/", "write", "w/"], WriteMode) == ["w"]
  {
    var p1 := ["read"];
    var p2 := p1 + ["read/"];
    var p3 := p2 + ["write"];
    var p4 := p3 + ["w/"];
    assert p4 == ["read", "read/", "write", "w/"];
    assert p1[..0] == [] && p2[..1] == p1 && p3[..2] == p2 && p4[..3] == p3;
    assert IsKeyword("read") && !IsKeyword("read/") && IsKeyword("write") && !IsKeyword("w/");
    assert ModeAfter(p1) == ReadMode;
    assert ModeAfter(p2) == ReadMode;
    assert ModeAfter(p3) == WriteMode;
    assert Strip("read/") == "read" && Strip("w/") == "w";
    assert Routed(p1, ReadMode) == [] && Routed(p1, WriteMode) == [];
    assert Routed(p2, ReadMode) == ["read"] && Routed(p2, WriteMode) == [];
    assert Routed(p3, ReadMode) == ["read"] && Routed(p3, WriteMode) == [];
  }

  /** Exactly one trailing '/' is removed: "a//" becomes "a/". */
  lemma StripRemovesOneSlash()
    ensures Strip("a//") == "a/" && Strip("/") == "/"
  {
    assert "a//"[..2] == "a/";
  }
}
