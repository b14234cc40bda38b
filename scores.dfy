/**
 * `top_scores`: keeping, for every user, that user's first `n` rows of a table of
 * predictions, users taken in the iteration order of `set(predictions['users'])`.
 */
module Scores {

  /** One row of the predictions table; only the user column matters, the rest is carried along. */
  datatype ScoreRow<R> = ScoreRow(user: int, rest: R)

  /** `predictions.loc[predictions['users'] == u]`: the rows of user `u`, in table order. */
  function RowsOf<R>(rows: seq<ScoreRow<R>>, u: int): (r: seq<ScoreRow<R>>)
    ensures forall i :: 0 <= i < |r| ==> r[i].user == u && r[i] in rows
  {
    if rows == [] then []
    else
      var init := RowsOf(rows[..|rows| - 1], u);
      assert forall x :: x in rows[..|rows| - 1] ==> x in rows;
      if rows[|rows| - 1].user == u then init + [rows[|rows| - 1]] else init
  }

  /** `DataFrame.head(n)`: the first `n` rows; for negative `n`, all rows but the last `-n`. */
  function Head<T>(s: seq<T>, n: int): (r: seq<T>)
    ensures n >= 0 ==> |r| == if n < |s| then n else |s|
    ensures n < 0 ==> |r| == if |s| + n > 0 then |s| + n else 0
    ensures r == s[..|r|]
  {
    if n >= 0 then (if n < |s| then s[..n] else s)
    else (if |s| + n > 0 then s[..|s| + n] else [])
  }

  /** The rows appended for the users of `order`, one block per user, in that order. */
  function TopRows<R>(rows: seq<ScoreRow<R>>, n: int, order: seq<int>): seq<ScoreRow<R>>
  {
    if order == [] then []
    else TopRows(rows, n, order[..|order| - 1]) + Head(RowsOf(rows, order[|order| - 1]), n)
  }

  /** What `list(set(predictions['users']))` guarantees: each user of the table exactly once. */
  ghost predicate UserOrder<R>(rows: seq<ScoreRow<R>>, order: seq<int>)
  {
    && (forall i, j :: 0 <= i < j < |order| ==> order[i] != order[j])
    && (forall u :: u in order <==> exists i :: 0 <= i < |rows| && rows[i].user == u)
  }

  lemma {:induction false} RowsOfAppend<R>(a: seq<ScoreRow<R>>, b: seq<ScoreRow<R>>, u: int)
    ensures RowsOf(a + b, u) == RowsOf(a, u) + RowsOf(b, u)
  {
    if b == [] {
      assert a + b == a;
    } else {
      assert (a + b)[..|a + b| - 1] == a + b[..|b| - 1];
      assert (a + b)[|a + b| - 1] == b[|b| - 1];
      RowsOfAppend(a, b[..|b| - 1], u);
    }
  }

  /** Filtering rows that all belong to one user keeps them all or none. */
  lemma {:induction false} RowsOfOneUser<R>(rows: seq<ScoreRow<R>>, v: int, u: int)
    requires forall i :: 0 <= i < |rows| ==> rows[i].user == v
    ensures RowsOf(rows, u) == if u == v then rows else []
  {
    if rows != [] {
      RowsOfOneUser(rows[..|rows| - 1], v, u);
      assert rows[..|rows| - 1] + [rows[|rows| - 1]] == rows;
    }
  }

  /** A user with no row has nothing to filter. */
  lemma {:induction false} RowsOfAbsent<R>(rows: seq<ScoreRow<R>>, u: int)
    requires forall i :: 0 <= i < |rows| ==> rows[i].user != u
    ensures RowsOf(rows, u) == []
  {
    if rows != [] {
      RowsOfAbsent(rows[..|rows| - 1], u);
    }
  }

  /** Splitting off the last user of a list of distinct users. */
  lemma DistinctInit(order: seq<int>)
    requires |order| >= 1 && forall i, j :: 0 <= i < j < |order| ==> order[i] != order[j]
    ensures var init := order[..|order| - 1];
      && (forall i, j :: 0 <= i < j < |init| ==> init[i] != init[j])
      && order[|order| - 1] !in init
      && forall u :: u in order <==> u in init || u == order[|order| - 1]
  {
    var init := order[..|order| - 1];
    assert order == init + [order[|order| - 1]];
    assert forall i :: 0 <= i < |init| ==> init[i] == order[i];
  }

  /** The block appended for user `v` holds rows of `v` only. */
  lemma BlockRows<R>(rows: seq<ScoreRow<R>>, n: int, v: int, u: int)
    ensures RowsOf(Head(RowsOf(rows, v), n), u) == if u == v then Head(RowsOf(rows, v), n) else []
  {
    var all := RowsOf(rows, v);
    var block := Head(all, n);
    assert forall i :: 0 <= i < |block| ==> block[i] == all[i];
    RowsOfOneUser(block, v, u);
  }

  /** The block of each user listed in `order` is that user's head; other users get nothing. */
  lemma {:induction false} TopRowsOf<R>(rows: seq<ScoreRow<R>>, n: int, order: seq<int>, u: int)
    requires forall i, j :: 0 <= i < j < |order| ==> order[i] != order[j]
    ensures RowsOf(TopRows(rows, n, order), u) == if u in order then Head(RowsOf(rows, u), n) else []
  {
    if order == [] {
      assert RowsOf<R>([], u) == [];
    } else {
      var init, last := order[..|order| - 1], order[|order| - 1];
      DistinctInit(order);
      TopRowsOf(rows, n, init, u);
      var before := TopRows(rows, n, init);
      var block := Head(RowsOf(rows, last), n);
      RowsOfAppend(before, block, u);
      BlockRows(rows, n, last, u);
      var expected := if u in order then Head(RowsOf(rows, u), n) else [];
      if u == last {
        assert RowsOf(before, u) == [] && RowsOf(block, u) == expected;
      } else {
        assert RowsOf(before, u) == expected && RowsOf(block, u) == [];
      }
      assert RowsOf(before, u) + RowsOf(block, u) == expected;
    }
  }

  /** Every row kept comes from the table. */
  lemma {:induction false} TopRowsFromTable<R>(rows: seq<ScoreRow<R>>, n: int, order: seq<int>)
    ensures forall x :: x in TopRows(rows, n, order) ==> x in rows
  {
    if order != [] {
      TopRowsFromTable(rows, n, order[..|order| - 1]);
      var block := Head(RowsOf(rows, order[|order| - 1]), n);
      assert forall x :: x in block ==> x in RowsOf(rows, order[|order| - 1]);
    }
  }

  /**
   * `top_scores(predictions, n)`, one user block at a time. Each user keeps exactly the first
   * `n` of their rows in table order (for negative `n`, all but their last `-n`), and no row
   * is invented.
   */
  method TopScores<R>(predictions: seq<ScoreRow<R>>, n: int, order: seq<int>) returns (top: seq<ScoreRow<R>>)
    requires UserOrder(predictions, order)
    ensures top == TopRows(predictions, n, order)
    ensures forall u :: RowsOf(top, u) == Head(RowsOf(predictions, u), n)
    ensures forall x :: x in top ==> x in predictions
  {
    top := [];
    for i := 0 to |order|
      invariant top == TopRows(predictions, n, order[..i])
    {
      assert order[..i + 1][..i] == order[..i];
      top := top + Head(RowsOf(predictions, order[i]), n);
    }
    assert order[..|order|] == order;
    forall u ensures RowsOf(top, u) == Head(RowsOf(predictions, u), n) {
      TopRowsOf(predictions, n, order, u);
      if u !in order {
        assert forall i :: 0 <= i < |predictions| ==> predictions[i].user != u;
        RowsOfAbsent(predictions, u);
      }
    }
    TopRowsFromTable(predictions, n, order);
  }

  /** With `n >= 0`, no user has more than `n` rows in the result. */
  lemma AtMostN<R>(predictions: seq<ScoreRow<R>>, n: int, order: seq<int>, u: int)
    requires UserOrder(predictions, order) && n >= 0
    ensures |RowsOf(TopRows(predictions, n, order), u)| <= n
  {
    TopRowsOf(predictions, n, order, u);
  }
}
