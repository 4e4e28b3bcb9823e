/** Concatenation of a sequence of rows, the order in which a nested loop
    (outer index over rows, inner index within a row) visits its body. */
module Seqs {
  import opened Arith

  function Flatten<T>(rows: seq<seq<T>>): seq<T>
  {
    if rows == [] then [] else rows[0] + Flatten(rows[1..])
  }

  /** When every row has width `w`, element `c` of row `r` sits at position
      `r * w + c` of the concatenation. */
  lemma {:induction false} FlattenAt<T>(rows: seq<seq<T>>, w: nat, r: nat, c: nat)
    requires forall t :: 0 <= t < |rows| ==> |rows[t]| == w
    requires r < |rows| && c < w
    ensures r * w + c < |Flatten(rows)|
    ensures Flatten(rows)[r * w + c] == rows[r][c]
    decreases r
  {
    assert Flatten(rows) == rows[0] + Flatten(rows[1..]);
    if r > 0 {
      FlattenAt(rows[1..], w, r - 1, c);
      assert r * w + c == w + ((r - 1) * w + c);
    }
  }

  /** When every row has width `w`, the concatenation has `|rows| * w`
      elements. */
  lemma {:induction false} FlattenLength<T>(rows: seq<seq<T>>, w: nat)
    requires forall t :: 0 <= t < |rows| ==> |rows[t]| == w
    ensures |Flatten(rows)| == |rows| * w
  {
    if rows != [] {
      FlattenLength(rows[1..], w);
      assert |rows| * w == w + (|rows| - 1) * w;
    }
  }

  /** When every row has width `w`, position `n` of the concatenation is
      element `n % w` of row `n / w`. */
  lemma FlattenAtIndex<T>(rows: seq<seq<T>>, w: nat, n: nat)
    requires forall t :: 0 <= t < |rows| ==> |rows[t]| == w
    requires n < |rows| * w
    ensures 0 < w && 0 <= n / w < |rows| && 0 <= n % w < w
    ensures n / w * w + n % w == n
    ensures |Flatten(rows)| == |rows| * w
    ensures Flatten(rows)[n] == rows[n / w][n % w]
  {
    assert 0 < w;
    var r, c := n / w, n % w;
    assert r * w + c == n;
    assert r * w <= n;
    MulLtCancel(r, |rows|, w);
    FlattenAt(rows, w, r, c);
    FlattenLength(rows, w);
  }

  /** A sequence made of the slice `[lo, mid)` of `all` followed by the
      suffix of `all` from `mid` is the suffix from `lo`. */
  lemma ConcatSuffix<T>(x: seq<T>, head: seq<T>, tail: seq<T>, all: seq<T>, lo: nat, mid: nat)
    requires lo <= mid <= |all|
    requires x == head + tail && head == all[lo..mid] && tail == all[mid..]
    ensures x == all[lo..]
  {
    assert all[lo..] == all[lo..mid] + all[mid..];
  }
}
