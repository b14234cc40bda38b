/**
 * The NumPy primitives the loaders are built from, on one-dimensional integer columns:
 * `np.unique` with `return_inverse`, the row-major `np.argwhere` of an equality table,
 * the in-place offset `idx += n`, and fancy indexing `a[idx]`.
 */
module Numpy {
  import opened Results

  ghost predicate StrictlyIncreasing(s: seq<int>)
  {
    forall i, j :: 0 <= i < j < |s| ==> s[i] < s[j]
  }

  /** Inserts `x` into a sorted, duplicate-free sequence, keeping it so. */
  function Insert(s: seq<int>, x: int): (r: seq<int>)
    requires StrictlyIncreasing(s)
    ensures StrictlyIncreasing(r)
    ensures forall y :: y in r <==> y in s || y == x
  {
    if s == [] then [x]
    else if x < s[0] then [x] + s
    else if x == s[0] then s
    else
      var rest := Insert(s[1..], x);
      assert forall y :: y in rest ==> s[0] < y by {
        forall y | y in rest ensures s[0] < y {
          if y in s[1..] {
            var j :| 0 <= j < |s[1..]| && s[1..][j] == y;
            assert s[j + 1] == y;
          }
        }
      }
      var r := [s[0]] + rest;
      assert forall i, j :: 0 <= i < j < |r| ==> r[i] < r[j] by {
        forall i, j | 0 <= i < j < |r| ensures r[i] < r[j] {
          assert r[j] == rest[j - 1] && r[j] in rest;
          if i > 0 {
            assert r[i] == rest[i - 1];
          }
        }
      }
      r
  }

  /** `np.unique(col)`: the distinct values of `col`, in increasing order. */
  function Unique(col: seq<int>): (r: seq<int>)
    ensures StrictlyIncreasing(r)
    ensures forall x :: x in r <==> x in col
  {
    if col == [] then []
    else Insert(Unique(col[..|col| - 1]), col[|col| - 1])
  }

  /** The tail of a strictly increasing sequence holds every element but the first. */
  lemma TailElements(a: seq<int>)
    requires StrictlyIncreasing(a) && a != []
    ensures StrictlyIncreasing(a[1..])
    ensures forall x :: x in a[1..] <==> x in a && x != a[0]
  {
    forall x ensures x in a[1..] <==> x in a && x != a[0] {
      if x in a[1..] {
        var i :| 0 <= i < |a[1..]| && a[1..][i] == x;
        assert a[0] < a[i + 1];
      }
      if x in a && x != a[0] {
        var i :| 0 <= i < |a| && a[i] == x;
        assert a[1..][i - 1] == x;
      }
    }
  }

  /** The least element of a strictly increasing sequence comes first. */
  lemma FirstIsLeast(a: seq<int>, x: int)
    requires StrictlyIncreasing(a) && x in a
    ensures a[0] <= x
  {
    var i :| 0 <= i < |a| && a[i] == x;
  }

  /** A sorted duplicate-free sequence is determined by its elements, so `Unique` is the only such answer. */
  lemma {:induction false} SortedByElements(a: seq<int>, b: seq<int>)
    requires StrictlyIncreasing(a) && StrictlyIncreasing(b)
    requires forall x :: x in a <==> x in b
    ensures a == b
  {
    if b != [] {
      assert b[0] in b && b[0] in a;
    }
    if a != [] {
      assert a[0] in a && a[0] in b;
      FirstIsLeast(a, b[0]);
      FirstIsLeast(b, a[0]);
      TailElements(a);
      TailElements(b);
      SortedByElements(a[1..], b[1..]);
      assert a == [a[0]] + a[1..] && b == [b[0]] + b[1..];
    }
  }

  /** The first position of `x` in `s`. */
  function Position(s: seq<int>, x: int): (k: nat)
    requires x in s
    ensures k < |s| && s[k] == x
    ensures forall j :: 0 <= j < k ==> s[j] != x
  {
    if s[0] == x then 0 else 1 + Position(s[1..], x)
  }

  /** In a sorted duplicate-free sequence a value has exactly one position. */
  lemma PositionOfSorted(s: seq<int>, j: nat)
    requires StrictlyIncreasing(s) && j < |s|
    ensures Position(s, s[j]) == j
  {
    assert forall i :: 0 <= i < |s| && i != j ==> s[i] != s[j] by {
      forall i | 0 <= i < |s| && i != j ensures s[i] != s[j] {
        if i < j { assert s[i] < s[j]; } else { assert s[j] < s[i]; }
      }
    }
  }

  /** `np.unique(col, return_inverse=True)[1]`: each value's position among the uniques. */
  function Inverse(uniques: seq<int>, col: seq<int>): (r: seq<nat>)
    requires forall k :: 0 <= k < |col| ==> col[k] in uniques
    ensures |r| == |col|
    ensures forall k :: 0 <= k < |col| ==> r[k] < |uniques| && uniques[r[k]] == col[k]
  {
    seq(|col|, k requires 0 <= k < |col| => Position(uniques, col[k]))
  }

  /** `idx += n` on an index array. */
  function Shift(idx: seq<nat>, n: nat): (r: seq<nat>)
    ensures |r| == |idx|
    ensures forall k :: 0 <= k < |idx| ==> r[k] == idx[k] + n
  {
    seq(|idx|, k requires 0 <= k < |idx| => idx[k] + n)
  }

  /** One row of `np.argwhere(col[:, None] == keys)`: the columns `j` with `keys[j] == x`, ascending. */
  function Matches(keys: seq<int>, x: int): (r: seq<nat>)
    ensures forall j :: 0 <= j < |r| ==> r[j] < |keys| && keys[r[j]] == x
  {
    if keys == [] then []
    else Matches(keys[..|keys| - 1], x) + (if keys[|keys| - 1] == x then [|keys| - 1] else [])
  }

  /**
   * `np.argwhere(col[:, None] == keys)[:, 1]`: the matching key positions, row by row; a row
   * whose value is not among the keys contributes nothing.
   */
  function ArgwhereEq(col: seq<int>, keys: seq<int>): (r: seq<nat>)
    ensures forall j :: 0 <= j < |r| ==> r[j] < |keys| && keys[r[j]] in col
  {
    if col == [] then []
    else ArgwhereEq(col[..|col| - 1], keys) + Matches(keys, col[|col| - 1])
  }

  /** The number of rows of `col` whose value is not among `keys`. */
  function Unmatched(col: seq<int>, keys: seq<int>): nat
  {
    if col == [] then 0
    else Unmatched(col[..|col| - 1], keys) + (if col[|col| - 1] in keys then 0 else 1)
  }

  /** Against unique keys a value matches its one position, or nothing. */
  lemma {:induction false} MatchesOfSorted(keys: seq<int>, x: int)
    requires StrictlyIncreasing(keys)
    ensures Matches(keys, x) == if x in keys then [Position(keys, x)] else []
  {
    if keys != [] {
      var init, n := keys[..|keys| - 1], |keys| - 1;
      assert keys == init + [keys[n]];
      MatchesOfSorted(init, x);
      if keys[n] == x {
        assert x !in init by {
          forall j | 0 <= j < |init| ensures init[j] != x {
            assert keys[j] < keys[n];
          }
        }
        PositionOfSorted(keys, n);
      } else if x in init {
        var p := Position(init, x);
        assert keys[p] == x;
        PositionOfSorted(keys, p);
      }
    }
  }

  /** `argwhere` drops exactly the rows whose value is not a key. */
  lemma {:induction false} ArgwhereEqLength(col: seq<int>, keys: seq<int>)
    requires StrictlyIncreasing(keys)
    ensures |ArgwhereEq(col, keys)| + Unmatched(col, keys) == |col|
  {
    if col != [] {
      ArgwhereEqLength(col[..|col| - 1], keys);
      MatchesOfSorted(keys, col[|col| - 1]);
    }
  }

  lemma {:induction false} UnmatchedZero(col: seq<int>, keys: seq<int>)
    ensures Unmatched(col, keys) == 0 <==> forall k :: 0 <= k < |col| ==> col[k] in keys
  {
    if col != [] {
      var init := col[..|col| - 1];
      UnmatchedZero(init, keys);
      assert forall k :: 0 <= k < |init| ==> init[k] == col[k];
    }
  }

  /** When every value is a key, `argwhere` gives the same positions as `np.unique`'s inverse. */
  lemma {:induction false} ArgwhereEqIsInverse(col: seq<int>, keys: seq<int>)
    requires StrictlyIncreasing(keys)
    requires forall k :: 0 <= k < |col| ==> col[k] in keys
    ensures ArgwhereEq(col, keys) == Inverse(keys, col)
  {
    if col != [] {
      var init := col[..|col| - 1];
      assert forall k :: 0 <= k < |init| ==> init[k] == col[k];
      ArgwhereEqIsInverse(init, keys);
      MatchesOfSorted(keys, col[|col| - 1]);
      InverseSnoc(keys, col);
    }
  }

  lemma InverseSnoc(keys: seq<int>, col: seq<int>)
    requires col != [] && forall k :: 0 <= k < |col| ==> col[k] in keys
    ensures Inverse(keys, col) == Inverse(keys, col[..|col| - 1]) + [Position(keys, col[|col| - 1])]
  {
    var init := col[..|col| - 1];
    assert forall k :: 0 <= k < |init| ==> init[k] == col[k];
    var a, b := Inverse(keys, col), Inverse(keys, init) + [Position(keys, col[|col| - 1])];
    forall k | 0 <= k < |a| ensures a[k] == b[k] {
      if k < |init| {
        assert a[k] == Position(keys, col[k]);
      }
    }
  }

  /** Whether `i` is a valid index along an axis of length `n` (negative indices count from the end). */
  predicate InBounds(n: nat, i: int)
  {
    -(n as int) <= i < n
  }

  function Wrap(n: nat, i: int): (k: nat)
    requires InBounds(n, i)
    ensures k < n
  {
    if i < 0 then n + i else i
  }

  /** Fancy indexing `a[idx]` along the first axis; an index out of range raises IndexError. */
  function Take<V>(a: seq<V>, idx: seq<int>): (r: Result<seq<V>>)
    ensures r.Ok? <==> forall k :: 0 <= k < |idx| ==> InBounds(|a|, idx[k])
    ensures r.Err? ==> r.error == IndexError
    ensures r.Ok? ==> |r.value| == |idx| && forall k :: 0 <= k < |idx| ==> r.value[k] == a[Wrap(|a|, idx[k])]
  {
    if forall k :: 0 <= k < |idx| ==> InBounds(|a|, idx[k])
    then Ok(seq(|idx|, k requires 0 <= k < |idx| => a[Wrap(|a|, idx[k])]))
    else Err(IndexError)
  }
}
