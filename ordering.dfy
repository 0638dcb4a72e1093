/**
 * The order in which `BTreeSet<String>` and `BTreeMap<String, _>` hand out their keys:
 * Rust compares `String`s byte by byte, which for UTF-8 is the lexicographic order of
 * code points, and that is what `Less` states on Dafny strings.
 * An ordered set is modelled as a strictly increasing sequence.
 */
module Ordering {

  /** Lexicographic "strictly below" on strings. */
  predicate Less(a: string, b: string)
    decreases |a|
  {
    if a == [] then b != []
    else b != [] && (a[0] < b[0] || (a[0] == b[0] && Less(a[1..], b[1..])))
  }

  lemma {:induction false} LessIrreflexive(a: string)
    ensures !Less(a, a)
    decreases |a|
  {
    if a != [] {
      LessIrreflexive(a[1..]);
    }
  }

  lemma {:induction false} LessTransitive(a: string, b: string, c: string)
    requires Less(a, b) && Less(b, c)
    ensures Less(a, c)
    decreases |a|
  {
    if a != [] && a[0] == b[0] && b[0] == c[0] {
      LessTransitive(a[1..], b[1..], c[1..]);
    }
  }

  lemma {:induction false} LessTotal(a: string, b: string)
    ensures a == b || Less(a, b) || Less(b, a)
    decreases |a|
  {
    if a != [] && b != [] && a[0] == b[0] {
      LessTotal(a[1..], b[1..]);
      if a[1..] == b[1..] {
        assert a == [a[0]] + a[1..] && b == [b[0]] + b[1..];
      }
    }
  }

  lemma LessAsymmetric(a: string, b: string)
    requires Less(a, b)
    ensures !Less(b, a)
  {
    if Less(b, a) {
      LessTransitive(a, b, a);
      LessIrreflexive(a);
    }
  }

  predicate StrictlySorted(s: seq<string>)
  {
    forall i, j :: 0 <= i < j < |s| ==> Less(s[i], s[j])
  }

  /**
   * `BTreeSet::insert`: the key goes in at its place in the order, and a key already
   * present leaves the set as it was.
   */
  function InsertSorted(s: seq<string>, x: string): (r: seq<string>)
    requires StrictlySorted(s)
    ensures StrictlySorted(r)
    ensures forall y :: y in r <==> y in s || y == x
    ensures x in s ==> r == s
    ensures x !in s ==> |r| == |s| + 1
    decreases |s|
  {
    if s == [] then [x]
    else if x == s[0] then s
    else if Less(x, s[0]) then
      assert forall j :: 0 < j < |s| ==> Less(x, s[j]) by {
        forall j | 0 < j < |s| ensures Less(x, s[j]) { LessTransitive(x, s[0], s[j]); }
      }
      LessIrreflexive(x);
      [x] + s
    else
      LessTotal(x, s[0]);
      var rest := InsertSorted(s[1..], x);
      assert forall y :: y in rest ==> Less(s[0], y);
      [s[0]] + rest
  }

  lemma MinimumExists(s: set<string>)
    requires s != {}
    ensures exists m :: m in s && forall x :: x in s ==> !Less(x, m)
    decreases |s|
  {
    var y :| y in s;
    var rest := s - {y};
    if rest == {} {
      LessIrreflexive(y);
      forall x | x in s
        ensures x == y
      {
        assert x !in rest;
      }
    } else {
      MinimumExists(rest);
      var m :| m in rest && forall x :: x in rest ==> !Less(x, m);
      var least := if Less(y, m) then y else m;
      forall x | x in s
        ensures !Less(x, least)
      {
        BelowLeast(x, y, m, rest);
      }
      assert least in s;
    }
  }

  /** A step of `MinimumExists`: nothing lies below the smaller of `y` and the minimum of the rest. */
  lemma BelowLeast(x: string, y: string, m: string, rest: set<string>)
    requires x == y || x in rest
    requires forall z :: z in rest ==> !Less(z, m)
    ensures !Less(x, if Less(y, m) then y else m)
  {
    LessIrreflexive(x);
    if Less(y, m) && x != y && Less(x, y) {
      LessTransitive(x, y, m);
    }
  }

  lemma MinimumBelowRest(s: set<string>, m: string)
    requires m in s && forall x :: x in s ==> !Less(x, m)
    ensures forall x :: x in s - {m} ==> Less(m, x)
  {
    forall x | x in s - {m} ensures Less(m, x) {
      LessTotal(m, x);
    }
  }

  /** The keys of an ordered set, in the order the set iterates them. */
  ghost function SortedList(s: set<string>): (r: seq<string>)
    ensures StrictlySorted(r)
    ensures |r| == |s|
    ensures forall x :: x in r <==> x in s
    decreases |s|
  {
    if s == {} then []
    else
      MinimumExists(s);
      var m :| m in s && forall x :: x in s ==> !Less(x, m);
      MinimumBelowRest(s, m);
      var rest := SortedList(s - {m});
      assert forall x :: x in rest ==> Less(m, x);
      [m] + rest
  }

  /** Two strictly increasing sequences holding the same keys are the same sequence. */
  lemma {:induction false} SortedUnique(a: seq<string>, b: seq<string>)
    requires StrictlySorted(a) && StrictlySorted(b)
    requires forall x :: x in a <==> x in b
    ensures a == b
    decreases |a|
  {
    assert a != [] ==> a[0] in b;
    assert b != [] ==> b[0] in a;
    if a != [] {
      if a[0] != b[0] {
        assert a[0] in b && b[0] in a;
        var i :| 0 <= i < |a| && a[i] == b[0];
        var j :| 0 <= j < |b| && b[j] == a[0];
        assert i > 0 && j > 0;
        LessAsymmetric(a[0], a[i]);
        assert false;
      }
      forall x ensures x in a[1..] <==> x in b[1..] {
        if x in a[1..] {
          var i :| 1 <= i < |a| && a[i] == x;
          assert Less(a[0], x);
          LessIrreflexive(x);
          assert x in b;
        }
        if x in b[1..] {
          var j :| 1 <= j < |b| && b[j] == x;
          assert Less(b[0], x);
          LessIrreflexive(x);
          assert x in a;
        }
      }
      SortedUnique(a[1..], b[1..]);
      assert a == [a[0]] + a[1..] && b == [b[0]] + b[1..];
    }
  }
}
