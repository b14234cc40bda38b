/**
 * `make_grid`: the grid-search expansion of a configuration whose leaves are lists of
 * candidate values, one configuration per combination of candidates.
 */
module Grid {
  import opened Results
  import opened PyDict
  import opened Config
  import opened Linearization
  import opened RoundTrip

  /** `[x] + c` for every combination `c` of `rest`, in order. */
  function Prefixed<T>(x: T, rest: seq<seq<T>>): seq<seq<T>>
  {
    seq(|rest|, j requires 0 <= j < |rest| => [x] + rest[j])
  }

  /** Every element of `xs` in front of every combination of `rest`, the first choice slowest. */
  function Choices<T>(xs: seq<T>, rest: seq<seq<T>>): (r: seq<seq<T>>)
    ensures forall j :: 0 <= j < |r| ==> |r[j]| >= 1 && r[j][0] in xs && r[j][1..] in rest
  {
    if xs == [] then []
    else
      var p, tail := Prefixed(xs[0], rest), Choices(xs[1..], rest);
      assert forall j :: 0 <= j < |p| ==> p[j][1..] == rest[j];
      assert forall j :: |p| <= j < |p + tail| ==> (p + tail)[j] == tail[j - |p|];
      p + tail
  }

  /** `itertools.product(*ls)`: one element of each list, the last list varying fastest. */
  function Product<T>(ls: seq<seq<T>>): (r: seq<seq<T>>)
    ensures forall j :: 0 <= j < |r| ==> |r[j]| == |ls|
  {
    if ls == [] then [[]]
    else
      var rest := Product(ls[1..]);
      ChoicesLength(ls[0], rest, |ls| - 1);
      Choices(ls[0], rest)
  }

  /** Combinations of equal length, each extended by one element. */
  lemma ChoicesLength<T>(xs: seq<T>, rest: seq<seq<T>>, n: nat)
    requires forall j :: 0 <= j < |rest| ==> |rest[j]| == n
    ensures forall j :: 0 <= j < |Choices(xs, rest)| ==> |Choices(xs, rest)[j]| == n + 1
  {
    var r := Choices(xs, rest);
    forall j | 0 <= j < |r| ensures |r[j]| == n + 1 {
      var k :| 0 <= k < |rest| && rest[k] == r[j][1..];
    }
  }

  /** The product of the lengths of `ls`. */
  function LengthProduct<T>(ls: seq<seq<T>>): nat
  {
    if ls == [] then 1 else |ls[0]| * LengthProduct(ls[1..])
  }

  lemma {:induction false} ChoicesSize<T>(xs: seq<T>, rest: seq<seq<T>>)
    ensures |Choices(xs, rest)| == |xs| * |rest|
  {
    if xs != [] {
      ChoicesSize(xs[1..], rest);
      assert |xs| * |rest| == |rest| + (|xs| - 1) * |rest|;
    }
  }

  /** `product` yields as many combinations as the product of the list lengths. */
  lemma {:induction false} ProductSize<T>(ls: seq<seq<T>>)
    ensures |Product(ls)| == LengthProduct(ls)
  {
    if ls != [] {
      ProductSize(ls[1..]);
      ChoicesSize(ls[0], Product(ls[1..]));
    }
  }

  lemma {:induction false} ChoicesComplete<T>(xs: seq<T>, rest: seq<seq<T>>, i: nat, c: seq<T>)
    requires i < |xs| && c in rest
    ensures [xs[i]] + c in Choices(xs, rest)
  {
    if i == 0 {
      var j :| 0 <= j < |rest| && rest[j] == c;
      assert Prefixed(xs[0], rest)[j] == [xs[i]] + c;
    } else {
      ChoicesComplete(xs[1..], rest, i - 1, c);
    }
  }

  /** Whether `c` picks, position by position, an element of the corresponding list. */
  predicate Picks<T(==)>(ls: seq<seq<T>>, c: seq<T>)
  {
    |c| == |ls| && forall i :: 0 <= i < |ls| ==> c[i] in ls[i]
  }

  lemma PicksTail<T>(ls: seq<seq<T>>, c: seq<T>)
    requires |ls| >= 1 && |c| == |ls|
    ensures Picks(ls, c) <==> c[0] in ls[0] && Picks(ls[1..], c[1..])
  {
    assert forall i :: 1 <= i < |ls| ==> c[1..][i - 1] == c[i] && ls[1..][i - 1] == ls[i];
  }

  /**
   * A sequence is a combination `product` yields exactly when it picks, position by position,
   * an element of the corresponding list.
   */
  lemma ProductMembers<T>(ls: seq<seq<T>>, c: seq<T>)
    ensures c in Product(ls) <==> Picks(ls, c)
  {
    if c in Product(ls) {
      ProductSound(ls, c);
    }
    if Picks(ls, c) {
      ProductComplete(ls, c);
    }
  }

  lemma {:induction false} ProductSound<T>(ls: seq<seq<T>>, c: seq<T>)
    requires c in Product(ls)
    ensures Picks(ls, c)
  {
    if ls != [] {
      var rest := Product(ls[1..]);
      assert |c| >= 1 && c[0] in ls[0] && c[1..] in rest;
      ProductSound(ls[1..], c[1..]);
      PicksTail(ls, c);
    }
  }

  lemma {:induction false} ProductComplete<T>(ls: seq<seq<T>>, c: seq<T>)
    requires Picks(ls, c)
    ensures c in Product(ls)
  {
    if ls == [] {
      assert c == [];
    } else {
      PicksTail(ls, c);
      ProductComplete(ls[1..], c[1..]);
      var k :| 0 <= k < |ls[0]| && ls[0][k] == c[0];
      ChoicesComplete(ls[0], Product(ls[1..]), k, c[1..]);
      assert c == [c[0]] + c[1..];
    }
  }

  /** `zip(keys, values)` */
  function Zip(keys: seq<Key>, vals: seq<Value>): seq<(Key, Value)>
    requires |keys| == |vals|
  {
    seq(|keys|, i requires 0 <= i < |keys| => (keys[i], vals[i]))
  }

  /** The candidate lists of a linearized configuration: `values` in `keys, values = zip(*…)`. */
  function Candidates(lin: seq<(Key, Value)>): seq<seq<Value>>
    requires forall i :: 0 <= i < |lin| ==> lin[i].1.List?
  {
    seq(|lin|, i requires 0 <= i < |lin| => lin[i].1.elems)
  }

  /** `[dict(zip(keys, values_list)) for values_list in product(*values)]` */
  function GridDicts(lin: seq<(Key, Value)>): (r: seq<seq<(Key, Value)>>)
    requires forall i :: 0 <= i < |lin| ==> lin[i].1.List?
  {
    var combos := Product(Candidates(lin));
    seq(|combos|, j requires 0 <= j < |combos| => AssignAll([], Zip(KeysOf(lin), combos[j])))
  }

  /** Whether `f` succeeds on every element of `ds`. */
  ghost predicate AllOk<A, B>(f: A -> Result<B>, ds: seq<A>)
  {
    forall i :: 0 <= i < |ds| ==> f(ds[i]).Ok?
  }

  lemma AllOkCons<A, B>(f: A -> Result<B>, ds: seq<A>)
    requires ds != []
    ensures AllOk(f, ds) <==> f(ds[0]).Ok? && AllOk(f, ds[1..])
  {
    assert forall i :: 1 <= i < |ds| ==> ds[1..][i - 1] == ds[i];
  }

  /** Whether `rs` holds, position by position, what `f` returns for `ds`. */
  ghost predicate Elementwise<A, B>(f: A -> Result<B>, ds: seq<A>, rs: seq<B>)
  {
    |rs| == |ds| && forall i :: 0 <= i < |ds| ==> f(ds[i]) == Ok(rs[i])
  }

  lemma ElementwiseCons<A, B>(f: A -> Result<B>, ds: seq<A>, first: B, rest: seq<B>)
    requires ds != [] && f(ds[0]) == Ok(first) && Elementwise(f, ds[1..], rest)
    ensures Elementwise(f, ds, [first] + rest)
  {
    var rs := [first] + rest;
    forall i | 1 <= i < |ds| ensures f(ds[i]) == Ok(rs[i]) {
      assert ds[i] == ds[1..][i - 1] && rs[i] == rest[i - 1];
    }
  }

  /** `[delinearize(d) for d in ds]`, raising the first error. */
  function DelinearizeAll(ds: seq<seq<(Key, Value)>>): (r: Result<seq<seq<(Key, Value)>>>)
    ensures r.Ok? <==> AllOk(Delinearized, ds)
    ensures r.Ok? ==> Elementwise(Delinearized, ds, r.value)
  {
    if ds == [] then Ok([])
    else
      AllOkCons(Delinearized, ds);
      var first :- Delinearized(ds[0]);
      var rest :- DelinearizeAll(ds[1..]);
      ElementwiseCons(Delinearized, ds, first, rest);
      Ok([first] + rest)
  }

  /** `make_grid(dict_of_list)` */
  function MakeGrid(es: seq<(Key, Value)>): Result<seq<seq<(Key, Value)>>>
  {
    var lin :- Linearized(es);
    if lin == [] then Err(ValueError)
    else
      LinearizedLeaves(es);
      DelinearizeAll(GridDicts(lin))
  }

  /** The candidate lists of a configuration's leaves, in depth-first order. */
  function LeafCandidates(ls: seq<(seq<Key>, Value)>): seq<seq<Value>>
    requires AllLists(ls)
  {
    seq(|ls|, i requires 0 <= i < |ls| => ls[i].1.elems)
  }

  /**
   * `make_grid` raises ValueError when a leaf is not a list (from `linearize`) and when there
   * is no leaf at all (nothing to unzip).
   */
  lemma MakeGridErrors(es: seq<(Key, Value)>)
    ensures !AllLists(Leaves(es)) ==> MakeGrid(es) == Err(ValueError)
    ensures Leaves(es) == [] ==> MakeGrid(es) == Err(ValueError)
  {
    LinearizedLeaves(es);
    if !AllLists(Leaves(es)) {
      assert Linearized(es).Err?;
      LinearizedValueError(es);
    }
  }

  /**
   * For a configuration with string keys whose leaves are all lists, `make_grid` succeeds and
   * returns one configuration per combination: the product of the list lengths.
   */
  lemma MakeGridCount(es: seq<(Key, Value)>)
    requires AllNames(Dict(es)) && AllLists(Leaves(es)) && Leaves(es) != []
    ensures MakeGrid(es).Ok?
    ensures |MakeGrid(es).value| == LengthProduct(LeafCandidates(Leaves(es)))
  {
    LinearizedLeaves(es);
    var ls := Leaves(es);
    var lin := Linearized(es).value;
    assert lin == LinPairs(ls);
    assert Candidates(lin) == LeafCandidates(ls);
    ProductSize(Candidates(lin));
    var ds := GridDicts(lin);
    forall j | 0 <= j < |ds| ensures Delinearized(ds[j]).Ok? {
      GridDictDelinearizes(es, Product(Candidates(lin))[j]);
    }
  }

  /** A dict of `linearize` keys of string paths, whatever its values, delinearizes. */
  lemma GridDictDelinearizes(es: seq<(Key, Value)>, c: seq<Value>)
    requires AllNames(Dict(es)) && AllLists(Leaves(es)) && |c| == |Leaves(es)|
    ensures Delinearized(AssignAll([], Zip(KeysOf(LinPairs(Leaves(es))), c))).Ok?
  {
    var ls := Leaves(es);
    LeavesNamed(es);
    var pairs := Zip(KeysOf(LinPairs(ls)), c);
    var d := AssignAll([], pairs);
    AssignAllKeys([], pairs);
    forall i | 0 <= i < |d| ensures Nested(d[i].0) {
      assert KeysOf(d)[i] == d[i].0;
      assert d[i].0 in KeysOf(pairs);
      var k :| 0 <= k < |pairs| && KeysOf(pairs)[k] == d[i].0;
      PathKeyNested(ls[k].0);
    }
    NestedDelinearizes(d);
  }

  /** The dict built from combination `c` is the linearized leaves of `es`, relabelled with `c`. */
  lemma GridDictIsLinDict(es: seq<(Key, Value)>, c: seq<Value>)
    requires AllLists(Leaves(es)) && |c| == |Leaves(es)|
    ensures Zip(KeysOf(LinPairs(Leaves(es))), c) == Relabel(Leaves(es), c)
  {
  }

  /** A combination of the candidates of well-formed leaves is made of well-formed values. */
  lemma CombinationWf(es: seq<(Key, Value)>, c: seq<Value>)
    requires WfValue(Dict(es)) && AllLists(Leaves(es)) && c in Product(LeafCandidates(Leaves(es)))
    ensures |c| == |Leaves(es)| && WfValues(c)
  {
    var ls := Leaves(es);
    LeavesWf(es);
    ProductSound(LeafCandidates(ls), c);
    forall i | 0 <= i < |c| ensures WfValue(c[i]) {
      assert c[i] in LeafCandidates(ls)[i];
      assert WfValue(ls[i].1);
    }
  }

  /** The dict built from one combination delinearizes to the input filled with that combination. */
  lemma GridConfig(es: seq<(Key, Value)>, c: seq<Value>)
    requires Linearizable(es) && AllLists(Leaves(es)) && c in Product(LeafCandidates(Leaves(es)))
    ensures |c| == |Leaves(es)|
    ensures Delinearized(AssignAll([], Zip(KeysOf(LinPairs(Leaves(es))), c))).Ok?
    ensures Same(Dict(Fill(es, c)), Dict(Delinearized(AssignAll([], Zip(KeysOf(LinPairs(Leaves(es))), c))).value))
  {
    CombinationWf(es, c);
    GridDictIsLinDict(es, c);
    RoundTrip.RoundTrip(es, c);
  }

  /**
   * Each configuration `make_grid` returns is the input with its leaves, depth first, replaced
   * by one combination of their candidates, in `itertools.product` order.
   */
  lemma MakeGridConfigs(es: seq<(Key, Value)>)
    requires Linearizable(es) && AllLists(Leaves(es)) && Leaves(es) != []
    ensures MakeGrid(es).Ok? && |MakeGrid(es).value| == |Product(LeafCandidates(Leaves(es)))|
    ensures forall j :: 0 <= j < |MakeGrid(es).value| ==>
      Same(Dict(Fill(es, Product(LeafCandidates(Leaves(es)))[j])), Dict(MakeGrid(es).value[j]))
  {
    MakeGridCount(es);
    ProductSize(LeafCandidates(Leaves(es)));
    var ls := Leaves(es);
    LinearizedLeaves(es);
    var lin := Linearized(es).value;
    assert lin == LinPairs(ls);
    assert Candidates(lin) == LeafCandidates(ls);
    var combos := Product(LeafCandidates(ls));
    var ds := GridDicts(lin);
    assert MakeGrid(es) == DelinearizeAll(ds);
    forall j | 0 <= j < |combos|
      ensures Same(Dict(Fill(es, combos[j])), Dict(MakeGrid(es).value[j]))
    {
      GridConfig(es, combos[j]);
      assert Delinearized(ds[j]) == Ok(MakeGrid(es).value[j]);
    }
  }
}
