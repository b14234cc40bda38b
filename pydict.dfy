/**
 * Python's `dict` as an insertion-ordered association list. Keys are unique in every
 * dict Python builds; `d[k] = v` overwrites an existing key in its original position and
 * appends a new key at the end, which is what `Assign` models. `{**a, **b}`, `a.update(b)`
 * and a dict comprehension are `AssignAll` (a comprehension starts from `[]`).
 */
module PyDict {
  import opened Results

  function KeysOf<K, V>(d: seq<(K, V)>): seq<K>
  {
    seq(|d|, i requires 0 <= i < |d| => d[i].0)
  }

  ghost predicate DistinctKeys<K, V>(d: seq<(K, V)>)
  {
    forall i, j :: 0 <= i < j < |d| ==> d[i].0 != d[j].0
  }

  /** `d.get(k)` */
  function Get<K(==), V>(d: seq<(K, V)>, k: K): (r: Option<V>)
    ensures r.Some? <==> k in KeysOf(d)
  {
    if d == [] then None
    else if d[0].0 == k then
      assert KeysOf(d)[0] == k;
      Some(d[0].1)
    else
      assert KeysOf(d) == [d[0].0] + KeysOf(d[1..]);
      Get(d[1..], k)
  }

  /** `d.get(k, default)` */
  function GetOr<K(==), V>(d: seq<(K, V)>, k: K, default: V): V
  {
    match Get(d, k)
    case Some(v) => v
    case None => default
  }

  /** `d[k] = v` */
  function Assign<K(==, !new), V>(d: seq<(K, V)>, k: K, v: V): (r: seq<(K, V)>)
    ensures Get(r, k) == Some(v)
    ensures forall k' :: k' != k ==> Get(r, k') == Get(d, k')
    ensures KeysOf(r) == if k in KeysOf(d) then KeysOf(d) else KeysOf(d) + [k]
  {
    if d == [] then [(k, v)]
    else if d[0].0 == k then
      assert KeysOf([(k, v)] + d[1..]) == KeysOf(d);
      [(k, v)] + d[1..]
    else
      var rest := Assign(d[1..], k, v);
      assert KeysOf(d) == [d[0].0] + KeysOf(d[1..]);
      assert KeysOf([d[0]] + rest) == [d[0].0] + KeysOf(rest);
      [d[0]] + rest
  }

  /** `for k, v in es: d[k] = v`, i.e. `{**d, **dict(es)}` */
  function AssignAll<K(==, !new), V>(d: seq<(K, V)>, es: seq<(K, V)>): seq<(K, V)>
  {
    if es == [] then d
    else Assign(AssignAll(d, es[..|es| - 1]), es[|es| - 1].0, es[|es| - 1].1)
  }

  lemma KeysOfAppend<K, V>(a: seq<(K, V)>, b: seq<(K, V)>)
    ensures KeysOf(a + b) == KeysOf(a) + KeysOf(b)
  {
  }

  lemma DistinctGet<K, V>(d: seq<(K, V)>, i: nat)
    requires DistinctKeys(d) && i < |d|
    ensures Get(d, d[i].0) == Some(d[i].1)
  {
    if i > 0 {
      DistinctGet(d[1..], i - 1);
    }
  }

  /** Assigning keeps keys unique. */
  lemma {:induction false} AssignDistinct<K(!new), V>(d: seq<(K, V)>, k: K, v: V)
    requires DistinctKeys(d)
    ensures DistinctKeys(Assign(d, k, v))
  {
    var r := Assign(d, k, v);
    forall i, j | 0 <= i < j < |r| ensures r[i].0 != r[j].0 {
      assert KeysOf(r)[i] == r[i].0 && KeysOf(r)[j] == r[j].0;
      if j < |d| {
        assert KeysOf(d)[i] == d[i].0 && KeysOf(d)[j] == d[j].0;
      } else {
        assert KeysOf(d)[i] == d[i].0;
      }
    }
  }

  /** Writing back the value a key already holds changes nothing. */
  lemma {:induction false} AssignSame<K(!new), V>(d: seq<(K, V)>, k: K, v: V)
    requires Get(d, k) == Some(v)
    ensures Assign(d, k, v) == d
  {
    if d != [] && d[0].0 != k {
      AssignSame(d[1..], k, v);
    }
  }

  /** The keys after a bulk update are the old keys and the new ones. */
  lemma {:induction false} AssignAllKeys<K(!new), V>(d: seq<(K, V)>, es: seq<(K, V)>)
    ensures forall k :: k in KeysOf(AssignAll(d, es)) <==> k in KeysOf(d) || k in KeysOf(es)
  {
    if es != [] {
      var init, last := es[..|es| - 1], es[|es| - 1];
      AssignAllKeys(d, init);
      assert es == init + [last];
      KeysOfAppend(init, [last]);
      assert KeysOf(es) == KeysOf(init) + [last.0];
      var before := AssignAll(d, init);
      assert AssignAll(d, es) == Assign(before, last.0, last.1);
      assert KeysOf(Assign(before, last.0, last.1)) == if last.0 in KeysOf(before) then KeysOf(before) else KeysOf(before) + [last.0];
    }
  }

  /** A bulk update keeps keys unique. */
  lemma {:induction false} AssignAllDistinct<K(!new), V>(d: seq<(K, V)>, es: seq<(K, V)>)
    requires DistinctKeys(d)
    ensures DistinctKeys(AssignAll(d, es))
  {
    if es != [] {
      AssignAllDistinct(d, es[..|es| - 1]);
      AssignDistinct(AssignAll(d, es[..|es| - 1]), es[|es| - 1].0, es[|es| - 1].1);
    }
  }

  /** When no key repeats, a bulk update just appends the new entries. */
  lemma {:induction false} AssignAllFresh<K(!new), V>(d: seq<(K, V)>, es: seq<(K, V)>)
    requires DistinctKeys(d + es)
    ensures AssignAll(d, es) == d + es
  {
    if es != [] {
      var init, last := es[..|es| - 1], es[|es| - 1];
      assert d + es == (d + init) + [last];
      assert DistinctKeys(d + init) by {
        forall i, j | 0 <= i < j < |d + init| ensures (d + init)[i].0 != (d + init)[j].0 {
          assert (d + init)[i] == (d + es)[i] && (d + init)[j] == (d + es)[j];
        }
      }
      AssignAllFresh(d, init);
      assert last.0 !in KeysOf(d + init) by {
        forall i | 0 <= i < |d + init| ensures (d + init)[i].0 != last.0 {
          assert (d + init)[i] == (d + es)[i] && last == (d + es)[|d + es| - 1];
        }
      }
      AssignAppend(d + init, last.0, last.1);
    }
  }

  lemma AssignAppend<K(!new), V>(d: seq<(K, V)>, k: K, v: V)
    requires k !in KeysOf(d)
    ensures Assign(d, k, v) == d + [(k, v)]
  {
    if d != [] {
      assert KeysOf(d) == [d[0].0] + KeysOf(d[1..]);
      AssignAppend(d[1..], k, v);
    }
  }

  /** A bulk update leaves every key it does not mention as it was. */
  lemma {:induction false} AssignAllGet<K(!new), V>(d: seq<(K, V)>, es: seq<(K, V)>, k: K)
    requires k !in KeysOf(es)
    ensures Get(AssignAll(d, es), k) == Get(d, k)
  {
    if es != [] {
      var init := es[..|es| - 1];
      assert k !in KeysOf(init) by {
        forall i | 0 <= i < |init| ensures KeysOf(init)[i] != k {
          assert KeysOf(es)[i] == KeysOf(init)[i];
        }
      }
      assert KeysOf(es)[|es| - 1] == es[|es| - 1].0;
      AssignAllGet(d, init, k);
    }
  }

  /** A bulk update of distinct fresh keys: each key reads its new value. */
  lemma AssignAllNewGet<K(!new), V>(d: seq<(K, V)>, es: seq<(K, V)>, i: nat)
    requires DistinctKeys(es) && i < |es|
    ensures Get(AssignAll(d, es), es[i].0) == Some(es[i].1)
    decreases |es|
  {
    var init, last := es[..|es| - 1], es[|es| - 1];
    if i < |es| - 1 {
      assert init[i] == es[i];
      assert DistinctKeys(init) by {
        forall a, b | 0 <= a < b < |init| ensures init[a].0 != init[b].0 {
          assert init[a] == es[a] && init[b] == es[b];
        }
      }
      AssignAllNewGet(d, init, i);
    }
  }

  /** `d.pop(k)` for a key of a dict: the entry with key `k` is removed, the rest keep their order. */
  function Pop<K(==, !new), V>(d: seq<(K, V)>, k: K): (r: seq<(K, V)>)
    ensures k !in KeysOf(r)
    ensures forall k' :: k' != k ==> Get(r, k') == Get(d, k')
  {
    if d == [] then []
    else
      var rest := Pop(d[1..], k);
      assert KeysOf(d) == [d[0].0] + KeysOf(d[1..]);
      if d[0].0 == k then rest
      else
        assert KeysOf([d[0]] + rest) == [d[0].0] + KeysOf(rest);
        [d[0]] + rest
  }

  /** A key a bulk update mentions reads the value of one of its entries. */
  lemma {:induction false} AssignAllGetFrom<K(!new), V>(d: seq<(K, V)>, es: seq<(K, V)>, k: K)
    requires k in KeysOf(es)
    ensures exists i :: 0 <= i < |es| && es[i].0 == k && Get(AssignAll(d, es), k) == Some(es[i].1)
  {
    var init, last := es[..|es| - 1], es[|es| - 1];
    if last.0 != k {
      var i :| 0 <= i < |es| && KeysOf(es)[i] == k;
      assert KeysOf(init)[i] == k;
      AssignAllGetFrom(d, init, k);
      var j :| 0 <= j < |init| && init[j].0 == k && Get(AssignAll(d, init), k) == Some(init[j].1);
      assert es[j] == init[j];
    }
  }

  /** After a bulk update, a key reads the value of the last entry that mentions it. */
  lemma {:induction false} AssignAllLast<K(!new), V>(d: seq<(K, V)>, es: seq<(K, V)>, i: nat)
    requires i < |es| && forall j :: i < j < |es| ==> es[j].0 != es[i].0
    ensures Get(AssignAll(d, es), es[i].0) == Some(es[i].1)
  {
    if i < |es| - 1 {
      var init := es[..|es| - 1];
      assert init[i] == es[i];
      assert forall j :: i < j < |init| ==> init[j] == es[j];
      AssignAllLast(d, init, i);
    }
  }

  /**
   * After a bulk update, a key the update mentions reads what `dict(es)` would give it, and
   * any other key reads what it read before.
   */
  lemma {:induction false} AssignAllOver<K(!new), V>(d: seq<(K, V)>, es: seq<(K, V)>, k: K)
    ensures Get(AssignAll(d, es), k) ==
      if Get(AssignAll([], es), k).Some? then Get(AssignAll([], es), k) else Get(d, k)
  {
    if es != [] {
      AssignAllOver(d, es[..|es| - 1], k);
    }
  }

  /** A bulk update in two parts is the same as one bulk update. */
  lemma {:induction false} AssignAllConcat<K(!new), V>(d: seq<(K, V)>, xs: seq<(K, V)>, ys: seq<(K, V)>)
    ensures AssignAll(d, xs + ys) == AssignAll(AssignAll(d, xs), ys)
  {
    if ys == [] {
      assert xs + ys == xs;
    } else {
      assert (xs + ys)[..|xs + ys| - 1] == xs + ys[..|ys| - 1];
      assert (xs + ys)[|xs + ys| - 1] == ys[|ys| - 1];
      AssignAllConcat(d, xs, ys[..|ys| - 1]);
    }
  }
}
