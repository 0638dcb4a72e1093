/** Small facts about sequences used by the loop proofs. */
module Seqs {

  /** A prefix one longer is the shorter prefix followed by the next element. */
  lemma PrefixSnoc<T>(s: seq<T>, i: nat)
    requires i < |s|
    ensures s[..i + 1] == s[..i] + [s[i]]
  {
  }

  /** Concatenation regroups: a tail of four parts can be appended as one. */
  lemma AppendTail<T>(a: seq<T>, b: seq<T>, c: seq<T>, d: seq<T>, e: seq<T>)
    ensures a + b + c + d + e == a + (b + c + d + e)
  {
  }

  /** The rows one after the other. */
  function Flatten<T>(rows: seq<seq<T>>): seq<T>
    decreases |rows|
  {
    if rows == [] then [] else Flatten(rows[..|rows| - 1]) + rows[|rows| - 1]
  }

  /** Rows of one width flatten to rows × width elements. */
  lemma {:induction false} FlattenLength<T>(rows: seq<seq<T>>, width: nat)
    requires forall k :: 0 <= k < |rows| ==> |rows[k]| == width
    ensures |Flatten(rows)| == |rows| * width
    decreases |rows|
  {
    if rows != [] {
      var n := |rows| - 1;
      FlattenLength(rows[..n], width);
      assert |Flatten(rows)| == n * width + width;
    }
  }

  /** In rows of one width, element `j` of row `i` ends up at `i * width + j`. */
  lemma {:induction false} FlattenLayout<T>(rows: seq<seq<T>>, width: nat, i: nat, j: nat)
    requires forall k :: 0 <= k < |rows| ==> |rows[k]| == width
    requires i < |rows| && j < width
    ensures i * width + j < |Flatten(rows)| && Flatten(rows)[i * width + j] == rows[i][j]
    decreases |rows|
  {
    var n := |rows| - 1;
    var init := rows[..n];
    var prev := Flatten(init);
    FlattenLength(init, width);
    FlattenLength(rows, width);
    assert Flatten(rows) == prev + rows[n];
    if i < n {
      FlattenLayout(init, width, i, j);
      assert init[i] == rows[i];
    } else {
      assert i * width + j == |prev| + j;
    }
  }
}
