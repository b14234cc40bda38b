/**
 * `linearize`, `extract` and `delinearize`: flattening a nested configuration into one level
 * whose keys are nested pairs, and rebuilding nesting from tuple keys.
 */
module Linearization {
  import opened Results
  import opened PyDict
  import opened Config

  /** Prefix every key of `pairs` with `k`: `((k, lin_key), lin_value) for …`. */
  function Nest(k: Key, pairs: seq<(Key, Value)>): seq<(Key, Value)>
  {
    seq(|pairs|, i requires 0 <= i < |pairs| => (Tuple([k, pairs[i].0]), pairs[i].1))
  }

  /** The list `linearize(dictionary)` returns, or ValueError on a leaf that is not a list. */
  function Linearized(es: seq<(Key, Value)>): Result<seq<(Key, Value)>>
    decreases es, 0
  {
    if es == [] then Ok([])
    else
      var init :- Linearized(es[..|es| - 1]);
      var last :- LinearizedEntry(es[|es| - 1]);
      Ok(init + last)
  }

  /** The pairs one entry contributes: nested pairs for a mapping, itself for a list. */
  function LinearizedEntry(e: (Key, Value)): Result<seq<(Key, Value)>>
    decreases e, 1
  {
    match e.1
    case Dict(sub) =>
      var inner :- Linearized(sub);
      Ok(Nest(e.0, inner))
    case List(_) => Ok([e])
    case Scalar(_) => Err(ValueError)
  }

  lemma {:induction false} LinearizedErrorPersists(es: seq<(Key, Value)>, j: nat)
    requires j <= |es| && Linearized(es[..j]).Err?
    ensures Linearized(es) == Linearized(es[..j])
    decreases |es| - j
  {
    if j < |es| {
      var init := es[..|es| - 1];
      assert init[..j] == es[..j];
      LinearizedErrorPersists(init, j);
    } else {
      assert es[..j] == es;
    }
  }

  /** The only error `linearize` raises is ValueError. */
  lemma {:induction false} LinearizedValueError(es: seq<(Key, Value)>)
    ensures Linearized(es).Err? ==> Linearized(es).error == ValueError
    decreases es, 0
  {
    if es != [] {
      LinearizedValueError(es[..|es| - 1]);
      LinearizedEntryValueError(es[|es| - 1]);
    }
  }

  lemma {:induction false} LinearizedEntryValueError(e: (Key, Value))
    ensures LinearizedEntry(e).Err? ==> LinearizedEntry(e).error == ValueError
    decreases e, 1
  {
    if e.1.Dict? {
      LinearizedValueError(e.1.entries);
    }
  }

  /** The loop of `linearize`: `exps` grows by `extend` for a mapping and `append` for a list. */
  method Linearize(es: seq<(Key, Value)>) returns (r: Result<seq<(Key, Value)>>)
    ensures r == Linearized(es)
    decreases Dict(es)
  {
    var exps := [];
    var i := 0;
    while i < |es|
      invariant 0 <= i <= |es|
      invariant Linearized(es[..i]) == Ok(exps)
    {
      var (key, value) := es[i];
      assert es[..i + 1][..i] == es[..i];
      assert es[..i + 1][i] == es[i];
      if value.Dict? {
        assert value == Dict(value.entries) && value == es[i].1;
        var inner := Linearize(value.entries);
        if inner.Err? {
          LinearizedErrorPersists(es, i + 1);
          return Err(inner.error);
        }
        exps := exps + Nest(key, inner.value);
      } else if value.List? {
        exps := exps + [(key, value)];
      } else {
        LinearizedErrorPersists(es, i + 1);
        return Err(ValueError);
      }
      i := i + 1;
    }
    assert es[..i] == es;
    return Ok(exps);
  }

  /** Whether every leaf is a list. */
  ghost predicate AllLists(ls: seq<(seq<Key>, Value)>)
  {
    forall i :: 0 <= i < |ls| ==> ls[i].1.List?
  }

  /** Each leaf as a pair of its path key and itself. */
  function LinPairs(ls: seq<(seq<Key>, Value)>): (r: seq<(Key, Value)>)
    requires forall i :: 0 <= i < |ls| ==> |ls[i].0| >= 1
    ensures |r| == |ls|
  {
    seq(|ls|, i requires 0 <= i < |ls| => (PathKey(ls[i].0), ls[i].1))
  }

  lemma LinPairsAppend(a: seq<(seq<Key>, Value)>, b: seq<(seq<Key>, Value)>)
    requires forall i :: 0 <= i < |a| ==> |a[i].0| >= 1
    requires forall i :: 0 <= i < |b| ==> |b[i].0| >= 1
    ensures LinPairs(a + b) == LinPairs(a) + LinPairs(b)
  {
  }

  /**
   * `linearize` raises ValueError exactly when some leaf is not a list; otherwise it lists every
   * leaf, depth first, under the key that nests its path.
   */
  lemma {:induction false} LinearizedLeaves(es: seq<(Key, Value)>)
    ensures Linearized(es).Ok? <==> AllLists(Leaves(es))
    ensures Linearized(es).Ok? ==> Linearized(es).value == LinPairs(Leaves(es))
    decreases es, 0
  {
    if es != [] {
      var init, last := es[..|es| - 1], es[|es| - 1];
      LinearizedLeaves(init);
      LinearizedEntryLeaves(last);
      LinPairsAppend(Leaves(init), EntryLeaves(last));
      var a, b := Leaves(init), EntryLeaves(last);
      assert AllLists(a + b) <==> AllLists(a) && AllLists(b) by {
        assert forall i :: 0 <= i < |a| ==> (a + b)[i] == a[i];
        assert forall i :: 0 <= i < |b| ==> (a + b)[|a| + i] == b[i];
      }
    }
  }

  lemma {:induction false} LinearizedEntryLeaves(e: (Key, Value))
    ensures LinearizedEntry(e).Ok? <==> AllLists(EntryLeaves(e))
    ensures LinearizedEntry(e).Ok? ==> LinearizedEntry(e).value == LinPairs(EntryLeaves(e))
    decreases e, 1
  {
    if e.1.Dict? {
      LinearizedLeaves(e.1.entries);
      var below := Leaves(e.1.entries);
      var ls := EntryLeaves(e);
      assert LinearizedEntry(e).Ok? <==> Linearized(e.1.entries).Ok?;
      assert |ls| == |below|;
      assert AllLists(ls) <==> AllLists(below) by {
        assert forall i :: 0 <= i < |below| ==> ls[i].1 == below[i].1;
      }
      if LinearizedEntry(e).Ok? {
        forall i | 0 <= i < |ls| ensures LinearizedEntry(e).value[i] == LinPairs(ls)[i] {
          assert ls[i].0 == [e.0] + below[i].0;
          assert ls[i].0[1..] == below[i].0;
        }
      }
    } else {
      var ls := EntryLeaves(e);
      assert ls == [([e.0], e.1)];
      assert AllLists(ls) <==> ls[0].1.List?;
      assert LinearizedEntry(e).Ok? <==> e.1.List?;
    }
  }

  /** `extract(elem)`: the sole element of a one-element tuple, any other tuple unchanged. */
  function Extract(parts: seq<Key>): Key
  {
    if |parts| == 1 then parts[0] else Tuple(parts)
  }

  /**
   * On a key `linearize` built, `(k, rest)`, dropping the head and extracting gives `rest`
   * back: the step `delinearize` takes to undo one level of nesting.
   */
  lemma ExtractUndoesNest(k: Key, rest: Key)
    ensures Extract(Tuple([k, rest]).parts[1..]) == rest
  {
    assert Tuple([k, rest]).parts[1..] == [rest];
  }

  /**
   * `extract` cannot tell a one-element tuple holding a tuple from that tuple: the tails of
   * `(h, (a, b))` and `(h, a, b)` extract to the same key.
   */
  lemma ExtractMergesNesting(h: Key, xs: seq<Key>)
    requires |xs| != 1
    ensures Extract(Tuple([h, Tuple(xs)]).parts[1..]) == Extract(Tuple([h] + xs).parts[1..]) == Tuple(xs)
  {
    assert Tuple([h, Tuple(xs)]).parts[1..] == [Tuple(xs)];
    assert Tuple([h] + xs).parts[1..] == xs;
  }

  /** The size of a key: one per string and per tuple node. */
  function KeySize(k: Key): (n: nat)
    ensures n >= 1
    decreases k, 1
  {
    match k
    case Name(_) => 1
    case Tuple(ps) => 1 + PartsSize(ps)
  }

  function PartsSize(ps: seq<Key>): nat
    decreases ps, 0
  {
    if ps == [] then 0 else KeySize(ps[0]) + PartsSize(ps[1..])
  }

  /** The largest key size of a dict; `delinearize` recurses on dicts with smaller keys. */
  function MaxKeySize(d: seq<(Key, Value)>): (n: nat)
    ensures forall i :: 0 <= i < |d| ==> KeySize(d[i].0) <= n
    ensures d == [] ==> n == 0
    ensures d != [] ==> exists i :: 0 <= i < |d| && KeySize(d[i].0) == n
  {
    if d == [] then 0
    else
      var rest := MaxKeySize(d[1..]);
      assert forall i :: 1 <= i < |d| ==> d[i] == d[1..][i - 1];
      if KeySize(d[0].0) >= rest then KeySize(d[0].0) else rest
  }

  lemma ExtractSmaller(parts: seq<Key>)
    requires |parts| >= 1
    ensures KeySize(Extract(parts[1..])) < KeySize(Tuple(parts))
  {
    var tail := parts[1..];
    assert PartsSize(parts) == KeySize(parts[0]) + PartsSize(tail);
    if |tail| == 1 {
      assert tail[1..] == [];
      assert PartsSize(tail) == KeySize(tail[0]);
    }
  }

  /** The entries with a tuple key, as (parts, value): `filter(lambda x: isinstance(x[0], tuple), …)`. */
  function TupleEntries(d: seq<(Key, Value)>): (r: seq<(seq<Key>, Value)>)
    ensures forall i :: 0 <= i < |r| ==> (Tuple(r[i].0), r[i].1) in d
  {
    if d == [] then []
    else
      var rest := TupleEntries(d[1..]);
      assert forall x :: x in d[1..] ==> x in d;
      if d[0].0.Tuple? then [(d[0].0.parts, d[0].1)] + rest else rest
  }

  /** The entries whose key is not a tuple, in order. */
  function PlainEntries(d: seq<(Key, Value)>): seq<(Key, Value)>
  {
    if d == [] then []
    else
      var rest := PlainEntries(d[1..]);
      if d[0].0.Tuple? then rest else [d[0]] + rest
  }

  /** Whether every tuple has a head. */
  predicate Headed(ts: seq<(seq<Key>, Value)>)
  {
    forall i :: 0 <= i < |ts| ==> |ts[i].0| >= 1
  }

  /** Whether every group is non-empty and made of tuples of `ts` that start with the group's head. */
  ghost predicate GroupsFrom(gs: seq<(Key, seq<(seq<Key>, Value)>)>, ts: seq<(seq<Key>, Value)>)
  {
    forall i :: 0 <= i < |gs| ==>
      && |gs[i].1| >= 1 && Headed(gs[i].1)
      && forall j :: 0 <= j < |gs[i].1| ==> gs[i].1[j] in ts && gs[i].1[j].0[0] == gs[i].0
  }

  /** Putting the first tuple in front of the first group of the rest, when the heads agree. */
  lemma JoinGroup(ts: seq<(seq<Key>, Value)>, rest: seq<(Key, seq<(seq<Key>, Value)>)>)
    requires Headed(ts) && ts != [] && GroupsFrom(rest, ts[1..])
    requires rest != [] && rest[0].0 == ts[0].0[0]
    ensures GroupsFrom([(ts[0].0[0], [ts[0]] + rest[0].1)] + rest[1..], ts)
  {
    var r := [(ts[0].0[0], [ts[0]] + rest[0].1)] + rest[1..];
    assert forall x :: x in ts[1..] ==> x in ts;
    forall i | 0 <= i < |r|
      ensures |r[i].1| >= 1 && Headed(r[i].1)
      ensures forall j :: 0 <= j < |r[i].1| ==> r[i].1[j] in ts && r[i].1[j].0[0] == r[i].0
    {
      if i == 0 {
        var first := r[0].1;
        assert forall j :: 1 <= j < |first| ==> first[j] == rest[0].1[j - 1];
      } else {
        assert r[i] == rest[i];
      }
    }
  }

  /** Starting a new group with the first tuple. */
  lemma StartGroup(ts: seq<(seq<Key>, Value)>, rest: seq<(Key, seq<(seq<Key>, Value)>)>)
    requires Headed(ts) && ts != [] && GroupsFrom(rest, ts[1..])
    ensures GroupsFrom([(ts[0].0[0], [ts[0]])] + rest, ts)
  {
    var r := [(ts[0].0[0], [ts[0]])] + rest;
    assert forall x :: x in ts[1..] ==> x in ts;
    forall i | 1 <= i < |r|
      ensures |r[i].1| >= 1 && Headed(r[i].1)
      ensures forall j :: 0 <= j < |r[i].1| ==> r[i].1[j] in ts && r[i].1[j].0[0] == r[i].0
    {
      assert r[i] == rest[i - 1];
    }
  }

  /**
   * `groupby(filtered, lambda x: x[0][0])`: maximal runs of consecutive tuples with the same
   * head, each paired with that head.
   */
  function GroupByHead(ts: seq<(seq<Key>, Value)>): (r: seq<(Key, seq<(seq<Key>, Value)>)>)
    requires Headed(ts)
    ensures ts == [] <==> r == []
    ensures ts != [] ==> r[0].0 == ts[0].0[0]
    ensures GroupsFrom(r, ts)
  {
    if ts == [] then []
    else
      var rest := GroupByHead(ts[1..]);
      var h := ts[0].0[0];
      if rest != [] && rest[0].0 == h then
        JoinGroup(ts, rest);
        [(h, [ts[0]] + rest[0].1)] + rest[1..]
      else
        StartGroup(ts, rest);
        [(h, [ts[0]])] + rest
  }

  /** `{extract(elem[0][1:]): elem[1] for elem in v}` for the members `v` of one group. */
  function InnerDict(ms: seq<(seq<Key>, Value)>): seq<(Key, Value)>
    requires Headed(ms)
  {
    AssignAll([], seq(|ms|, j requires 0 <= j < |ms| => (Extract(ms[j].0[1..]), ms[j].1)))
  }

  /** The inner dict of a group has smaller keys than the tuples it came from. */
  lemma InnerSmaller(ms: seq<(seq<Key>, Value)>, bound: nat)
    requires Headed(ms) && |ms| >= 1
    requires forall j :: 0 <= j < |ms| ==> KeySize(Tuple(ms[j].0)) <= bound
    ensures MaxKeySize(InnerDict(ms)) < bound
  {
    var pairs := seq(|ms|, j requires 0 <= j < |ms| => (Extract(ms[j].0[1..]), ms[j].1));
    var inner := InnerDict(ms);
    AssignAllKeys([], pairs);
    ExtractSmaller(ms[0].0);
    forall i | 0 <= i < |inner| ensures KeySize(inner[i].0) < bound {
      assert KeysOf(inner)[i] == inner[i].0;
      assert inner[i].0 in KeysOf(inner);
      assert inner[i].0 in KeysOf(pairs);
      var j :| 0 <= j < |pairs| && KeysOf(pairs)[j] == inner[i].0;
      ExtractSmaller(ms[j].0);
    }
  }

  /** Whether every group is non-empty, headed, and made of tuples of size at most `bound`. */
  ghost predicate GroupsBelow(gs: seq<(Key, seq<(seq<Key>, Value)>)>, bound: nat)
  {
    forall i :: 0 <= i < |gs| ==>
      |gs[i].1| >= 1 && Headed(gs[i].1) && forall j :: 0 <= j < |gs[i].1| ==> KeySize(Tuple(gs[i].1[j].0)) <= bound
  }

  lemma GroupsOfDictBelow(d: seq<(Key, Value)>)
    requires Headed(TupleEntries(d))
    ensures GroupsBelow(GroupByHead(TupleEntries(d)), MaxKeySize(d))
  {
    var ts := TupleEntries(d);
    var gs := GroupByHead(ts);
    forall i, j | 0 <= i < |gs| && 0 <= j < |gs[i].1| ensures KeySize(Tuple(gs[i].1[j].0)) <= MaxKeySize(d) {
      var m := gs[i].1[j];
      assert m in ts;
      var t :| 0 <= t < |ts| && ts[t] == m;
      assert (Tuple(m.0), m.1) in d;
    }
  }

  /** Dropping the last group keeps the bound. */
  lemma GroupsBelowInit(gs: seq<(Key, seq<(seq<Key>, Value)>)>, bound: nat)
    requires GroupsBelow(gs, bound) && gs != []
    ensures GroupsBelow(gs[..|gs| - 1], bound)
  {
    var init := gs[..|gs| - 1];
    assert forall i :: 0 <= i < |init| ==> init[i] == gs[i];
  }

  /** Whether `r` binds the heads of `gs`, in order, each to a sub-dict. */
  ghost predicate HeadsToDicts(r: seq<(Key, Value)>, gs: seq<(Key, seq<(seq<Key>, Value)>)>)
  {
    |r| == |gs| && forall i :: 0 <= i < |gs| ==> r[i].0 == gs[i].0 && r[i].1.Dict?
  }

  lemma HeadsToDictsSnoc(init: seq<(Key, Value)>, gs: seq<(Key, seq<(seq<Key>, Value)>)>, inner: seq<(Key, Value)>)
    requires gs != [] && HeadsToDicts(init, gs[..|gs| - 1])
    ensures HeadsToDicts(init + [(gs[|gs| - 1].0, Dict(inner))], gs)
  {
    var r := init + [(gs[|gs| - 1].0, Dict(inner))];
    forall i | 0 <= i < |gs| ensures r[i].0 == gs[i].0 && r[i].1.Dict? {
      if i < |gs| - 1 {
        assert r[i] == init[i] && gs[..|gs| - 1][i] == gs[i];
      }
    }
  }

  /** `{k: delinearize(inner) for k, v in grouped}` before the keys are merged. */
  function DelinearizeGroups(gs: seq<(Key, seq<(seq<Key>, Value)>)>, bound: nat): (r: Result<seq<(Key, Value)>>)
    requires GroupsBelow(gs, bound)
    ensures r.Ok? ==> HeadsToDicts(r.value, gs)
    decreases bound, 0, |gs|
  {
    if gs == [] then Ok([])
    else
      GroupsBelowInit(gs, bound);
      var init :- DelinearizeGroups(gs[..|gs| - 1], bound);
      var last := gs[|gs| - 1];
      InnerSmaller(last.1, bound);
      var inner :- Delinearized(InnerDict(last.1));
      HeadsToDictsSnoc(init, gs, inner);
      Ok(init + [(last.0, Dict(inner))])
  }

  /** The groups delinearize when each group's inner dict does. */
  lemma {:induction false} DelinearizeGroupsOk(gs: seq<(Key, seq<(seq<Key>, Value)>)>, bound: nat)
    requires GroupsBelow(gs, bound)
    requires forall i :: 0 <= i < |gs| ==> Delinearized(InnerDict(gs[i].1)).Ok?
    ensures DelinearizeGroups(gs, bound).Ok?
  {
    if gs != [] {
      var init := gs[..|gs| - 1];
      assert forall i :: 0 <= i < |init| ==> init[i] == gs[i];
      assert GroupsBelow(init, bound);
      DelinearizeGroupsOk(init, bound);
      assert Delinearized(InnerDict(gs[|gs| - 1].1)).Ok?;
    }
  }

  /** The head of group `i` is bound to the delinearization of the group's inner dict. */
  lemma {:induction false} DelinearizeGroupsAt(gs: seq<(Key, seq<(seq<Key>, Value)>)>, bound: nat, i: nat)
    requires GroupsBelow(gs, bound) && DelinearizeGroups(gs, bound).Ok? && i < |gs|
    ensures Delinearized(InnerDict(gs[i].1)).Ok?
    ensures DelinearizeGroups(gs, bound).value[i] == (gs[i].0, Dict(Delinearized(InnerDict(gs[i].1)).value))
    decreases |gs|
  {
    var init, last := gs[..|gs| - 1], gs[|gs| - 1];
    var ri, rl := DelinearizeGroups(init, bound), Delinearized(InnerDict(last.1));
    assert ri.Ok? && rl.Ok?;
    assert DelinearizeGroups(gs, bound).value == ri.value + [(last.0, Dict(rl.value))];
    if i < |gs| - 1 {
      assert init[i] == gs[i];
      DelinearizeGroupsAt(init, bound, i);
    }
  }

  /** Whether some key is the empty tuple, whose head `x[0][0]` raises IndexError. */
  predicate HasEmptyTuple(d: seq<(Key, Value)>)
  {
    exists i :: 0 <= i < |d| && d[i].0 == Tuple([])
  }

  lemma HeadedUnlessEmptyTuple(d: seq<(Key, Value)>)
    ensures Headed(TupleEntries(d)) <==> !HasEmptyTuple(d)
  {
    var ts := TupleEntries(d);
    if HasEmptyTuple(d) {
      var i :| 0 <= i < |d| && d[i].0 == Tuple([]);
      TupleEntriesComplete(d, i);
    }
  }

  lemma {:induction false} TupleEntriesComplete(d: seq<(Key, Value)>, i: nat)
    requires i < |d| && d[i].0.Tuple?
    ensures (d[i].0.parts, d[i].1) in TupleEntries(d)
  {
    if i > 0 {
      TupleEntriesComplete(d[1..], i - 1);
    }
  }

  /**
   * The dict `delinearize(lin_dict)` returns: the non-tuple entries, then each group's head
   * bound to the recursive delinearization of its inner dict.
   */
  function Delinearized(d: seq<(Key, Value)>): Result<seq<(Key, Value)>>
    decreases MaxKeySize(d), 1, 0
  {
    if HasEmptyTuple(d) then Err(IndexError)
    else
      HeadedUnlessEmptyTuple(d);
      GroupsOfDictBelow(d);
      var news :- DelinearizeGroups(GroupByHead(TupleEntries(d)), MaxKeySize(d));
      Ok(AssignAll(PlainEntries(d), AssignAll([], news)))
  }

  /** Whether no two neighbouring groups share a head. */
  predicate HeadsAlternate(gs: seq<(Key, seq<(seq<Key>, Value)>)>)
  {
    forall i :: 0 <= i < |gs| - 1 ==> gs[i].0 != gs[i + 1].0
  }

  /** `groupby` groups are maximal: neighbouring groups have different heads. */
  lemma {:induction false} GroupHeadsAlternate(ts: seq<(seq<Key>, Value)>)
    requires Headed(ts)
    ensures HeadsAlternate(GroupByHead(ts))
  {
    if ts != [] {
      GroupHeadsAlternate(ts[1..]);
      var rest := GroupByHead(ts[1..]);
      var h := ts[0].0[0];
      var r := GroupByHead(ts);
      if rest != [] && rest[0].0 == h {
        assert r == [(h, [ts[0]] + rest[0].1)] + rest[1..];
        forall i | 0 <= i < |r| - 1 ensures r[i].0 != r[i + 1].0 {
          assert r[i].0 == rest[i].0 && r[i + 1] == rest[i + 1];
          assert rest[i].0 != rest[i + 1].0;
        }
      } else {
        assert r == [(h, [ts[0]])] + rest;
        forall i | 0 <= i < |r| - 1 ensures r[i].0 != r[i + 1].0 {
          assert r[i + 1] == rest[i];
          if i > 0 {
            assert r[i] == rest[i - 1];
            assert rest[i - 1].0 != rest[i].0;
          } else {
            assert r[i].0 == h;
          }
        }
      }
    }
  }

  lemma {:induction false} GroupHeadsCover(ts: seq<(seq<Key>, Value)>, j: nat)
    requires Headed(ts) && j < |ts|
    ensures exists i :: 0 <= i < |GroupByHead(ts)| && GroupByHead(ts)[i].0 == ts[j].0[0]
  {
    if j > 0 {
      GroupHeadsCover(ts[1..], j - 1);
      var rest := GroupByHead(ts[1..]);
      var i :| 0 <= i < |rest| && rest[i].0 == ts[1..][j - 1].0[0];
      var r := GroupByHead(ts);
      if rest != [] && rest[0].0 == ts[0].0[0] {
        assert r == [(ts[0].0[0], [ts[0]] + rest[0].1)] + rest[1..];
        if i > 0 {
          assert r[i].0 == rest[i].0;
        }
      } else {
        assert r[i + 1].0 == rest[i].0;
      }
    }
  }

  /** `h` is the head of some tuple key of `d`. */
  ghost predicate IsHead(d: seq<(Key, Value)>, h: Key)
  {
    exists i :: 0 <= i < |d| && d[i].0.Tuple? && |d[i].0.parts| >= 1 && d[i].0.parts[0] == h
  }

  lemma {:induction false} PlainEntriesGet(d: seq<(Key, Value)>, k: Key)
    requires !k.Tuple?
    ensures Get(PlainEntries(d), k) == Get(d, k)
  {
    if d != [] {
      PlainEntriesGet(d[1..], k);
    }
  }

  lemma {:induction false} PlainEntriesKeys(d: seq<(Key, Value)>)
    ensures forall k :: k in KeysOf(PlainEntries(d)) <==> k in KeysOf(d) && !k.Tuple?
  {
    forall k ensures k in KeysOf(PlainEntries(d)) <==> k in KeysOf(d) && !k.Tuple? {
      if k.Tuple? {
        PlainNoTuple(d, k);
      } else {
        PlainEntriesGet(d, k);
      }
    }
  }

  lemma {:induction false} PlainNoTuple(d: seq<(Key, Value)>, k: Key)
    requires k.Tuple?
    ensures k !in KeysOf(PlainEntries(d))
  {
    if d != [] {
      PlainNoTuple(d[1..], k);
      var rest := PlainEntries(d[1..]);
      if !d[0].0.Tuple? {
        assert KeysOf([d[0]] + rest) == [d[0].0] + KeysOf(rest);
      }
    }
  }

  /** The dict of new entries `delinearize` builds, before the merge. */
  function NewEntries(d: seq<(Key, Value)>): seq<(Key, Value)>
    requires Delinearized(d).Ok?
  {
    HeadedUnlessEmptyTuple(d);
    GroupsOfDictBelow(d);
    AssignAll([], DelinearizeGroups(GroupByHead(TupleEntries(d)), MaxKeySize(d)).value)
  }

  /** The heads of the groups, in order. */
  function Heads(gs: seq<(Key, seq<(seq<Key>, Value)>)>): seq<Key>
  {
    seq(|gs|, i requires 0 <= i < |gs| => gs[i].0)
  }

  /** Every group is headed by the head of some tuple key of the dict. */
  lemma GroupHeadIsTupleHead(d: seq<(Key, Value)>, i: nat)
    requires Headed(TupleEntries(d)) && i < |GroupByHead(TupleEntries(d))|
    ensures IsHead(d, GroupByHead(TupleEntries(d))[i].0)
  {
    var ts := TupleEntries(d);
    var gs := GroupByHead(ts);
    assert gs[i].1[0] in ts;
    var t :| 0 <= t < |ts| && ts[t] == gs[i].1[0];
    var e := (Tuple(ts[t].0), ts[t].1);
    var n :| 0 <= n < |d| && d[n] == e;
  }

  /** The head of every tuple key of the dict heads some group. */
  lemma TupleHeadIsGroupHead(d: seq<(Key, Value)>, h: Key)
    requires Headed(TupleEntries(d)) && IsHead(d, h)
    ensures h in Heads(GroupByHead(TupleEntries(d)))
  {
    var ts := TupleEntries(d);
    var gs := GroupByHead(ts);
    var n :| 0 <= n < |d| && d[n].0.Tuple? && |d[n].0.parts| >= 1 && d[n].0.parts[0] == h;
    TupleEntriesComplete(d, n);
    var t :| 0 <= t < |ts| && ts[t] == (d[n].0.parts, d[n].1);
    GroupHeadsCover(ts, t);
    var i :| 0 <= i < |gs| && gs[i].0 == h;
    assert Heads(gs)[i] == h;
  }

  /** A key heads a group exactly when it is the head of some tuple key of the dict. */
  lemma HeadsAreTupleHeads(d: seq<(Key, Value)>, h: Key)
    requires Headed(TupleEntries(d))
    ensures h in Heads(GroupByHead(TupleEntries(d))) <==> IsHead(d, h)
  {
    var gs := GroupByHead(TupleEntries(d));
    if h in Heads(gs) {
      var i :| 0 <= i < |gs| && Heads(gs)[i] == h;
      GroupHeadIsTupleHead(d, i);
    }
    if IsHead(d, h) {
      TupleHeadIsGroupHead(d, h);
    }
  }

  /** The new entries are keyed by the heads of the tuple keys, each bound to a nested dict. */
  lemma NewEntriesKeys(d: seq<(Key, Value)>)
    requires Delinearized(d).Ok?
    ensures DistinctKeys(NewEntries(d))
    ensures forall h :: h in KeysOf(NewEntries(d)) <==> IsHead(d, h)
    ensures forall h :: h in KeysOf(NewEntries(d)) ==> Get(NewEntries(d), h).value.Dict?
  {
    HeadedUnlessEmptyTuple(d);
    GroupsOfDictBelow(d);
    var gs := GroupByHead(TupleEntries(d));
    var news := DelinearizeGroups(gs, MaxKeySize(d)).value;
    var newDict := NewEntries(d);
    AssignAllKeys([], news);
    assert DistinctKeys<Key, Value>([]);
    AssignAllDistinct([], news);
    assert KeysOf(news) == Heads(gs);
    forall h ensures h in KeysOf(newDict) <==> IsHead(d, h) {
      HeadsAreTupleHeads(d, h);
    }
    forall h | h in KeysOf(newDict) ensures Get(newDict, h).value.Dict? {
      AssignAllGetFrom([], news, h);
    }
  }

  /**
   * The keys `delinearize` returns are the keys of `d` that are not tuples and the heads of its
   * tuple keys. A key that is neither a tuple nor a head keeps its value; every head maps to a
   * nested dict.
   */
  lemma DelinearizedKeys(d: seq<(Key, Value)>)
    requires Delinearized(d).Ok?
    ensures var r := Delinearized(d).value;
      && (forall k :: k in KeysOf(r) <==> (k in KeysOf(d) && !k.Tuple?) || IsHead(d, k))
      && (forall k: Key :: !k.Tuple? && !IsHead(d, k) ==> Get(r, k) == Get(d, k))
      && (forall h :: IsHead(d, h) ==> Get(r, h).Some? && Get(r, h).value.Dict?)
  {
    var newDict := NewEntries(d);
    var plain := PlainEntries(d);
    var r := Delinearized(d).value;
    assert r == AssignAll(plain, newDict);
    NewEntriesKeys(d);
    AssignAllKeys(plain, newDict);
    PlainEntriesKeys(d);
    forall k: Key | !k.Tuple? && !IsHead(d, k) ensures Get(r, k) == Get(d, k) {
      AssignAllGet(plain, newDict, k);
      PlainEntriesGet(d, k);
    }
    forall h | IsHead(d, h) ensures Get(r, h).Some? && Get(r, h).value.Dict? {
      var i :| 0 <= i < |newDict| && KeysOf(newDict)[i] == h;
      AssignAllNewGet(plain, newDict, i);
      DistinctGet(newDict, i);
    }
  }

  /** The entries of `d` whose key is not one of `ks`, in order. */
  function Without(d: seq<(Key, Value)>, ks: seq<Key>): seq<(Key, Value)>
  {
    if d == [] then []
    else (if d[0].0 in ks then [] else [d[0]]) + Without(d[1..], ks)
  }

  lemma {:induction false} PopWithout(d: seq<(Key, Value)>, ks: seq<Key>, k: Key)
    ensures Pop(Without(d, ks), k) == Without(d, ks + [k])
  {
    if d != [] {
      PopWithout(d[1..], ks, k);
      var rest := Without(d[1..], ks);
      assert d[0].0 in ks + [k] <==> d[0].0 in ks || d[0].0 == k;
      if d[0].0 !in ks {
        assert Without(d, ks) == [d[0]] + rest;
        assert ([d[0]] + rest)[1..] == rest;
      } else {
        assert Without(d, ks) == rest;
        assert Without(d, ks + [k]) == Without(d[1..], ks + [k]);
      }
    }
  }

  lemma {:induction false} WithoutNothing(d: seq<(Key, Value)>)
    ensures Without(d, []) == d
  {
    if d != [] {
      WithoutNothing(d[1..]);
    }
  }

  /** Removing every tuple key, and nothing else, leaves the plain entries. */
  lemma {:induction false} WithoutTuples(d: seq<(Key, Value)>, ks: seq<Key>)
    requires forall i :: 0 <= i < |d| && d[i].0.Tuple? ==> d[i].0 in ks
    requires forall j :: 0 <= j < |ks| ==> ks[j].Tuple?
    ensures Without(d, ks) == PlainEntries(d)
  {
    if d != [] {
      assert forall i :: 1 <= i < |d| ==> d[1..][i - 1] == d[i];
      WithoutTuples(d[1..], ks);
    }
  }

  function TupleKeys(ts: seq<(seq<Key>, Value)>): seq<Key>
  {
    seq(|ts|, i requires 0 <= i < |ts| => Tuple(ts[i].0))
  }

  /**
   * `for key, value in filtered: lin_dict.pop(key)`: popping every tuple key, one at a time,
   * leaves exactly the plain entries, in their order.
   */
  method PopTupleKeys(linDict: seq<(Key, Value)>) returns (remaining: seq<(Key, Value)>)
    ensures remaining == PlainEntries(linDict)
  {
    var filtered := TupleEntries(linDict);
    remaining := linDict;
    WithoutNothing(linDict);
    assert TupleKeys(filtered[..0]) == [];
    var j := 0;
    while j < |filtered|
      invariant 0 <= j <= |filtered|
      invariant remaining == Without(linDict, TupleKeys(filtered[..j]))
    {
      PopWithout(linDict, TupleKeys(filtered[..j]), Tuple(filtered[j].0));
      assert TupleKeys(filtered[..j + 1]) == TupleKeys(filtered[..j]) + [Tuple(filtered[j].0)];
      remaining := Pop(remaining, Tuple(filtered[j].0));
      j := j + 1;
    }
    assert filtered[..j] == filtered;
    forall i | 0 <= i < |linDict| && linDict[i].0.Tuple? ensures linDict[i].0 in TupleKeys(filtered) {
      TupleEntriesComplete(linDict, i);
      var t :| 0 <= t < |filtered| && filtered[t] == (linDict[i].0.parts, linDict[i].1);
      assert TupleKeys(filtered)[t] == linDict[i].0;
    }
    WithoutTuples(linDict, TupleKeys(filtered));
  }

  /**
   * `delinearize` as the source runs it: the new nested entries are built first, then every
   * tuple key is popped from the argument, then the rest and the new entries are merged.
   * `remaining` is what is left of the argument dict afterwards.
   */
  method Delinearize(linDict: seq<(Key, Value)>) returns (r: Result<seq<(Key, Value)>>, remaining: seq<(Key, Value)>)
    ensures r == Delinearized(linDict)
    ensures remaining == if r.Ok? then PlainEntries(linDict) else linDict
  {
    if HasEmptyTuple(linDict) {
      return Err(IndexError), linDict;
    }
    HeadedUnlessEmptyTuple(linDict);
    GroupsOfDictBelow(linDict);
    var news := DelinearizeGroups(GroupByHead(TupleEntries(linDict)), MaxKeySize(linDict));
    if news.Err? {
      return Err(news.error), linDict;
    }
    var newDict := AssignAll([], news.value);
    remaining := PopTupleKeys(linDict);
    r := Ok(AssignAll(remaining, newDict));
  }

  /** The tuple entries of the example below, in order; it has no plain entries. */
  lemma SplitEntriesExample(d: seq<(Key, Value)>)
    requires d == [(Tuple([Name("a"), Name("x")]), Scalar("1")), (Tuple([Name("b"), Name("y")]), Scalar("2")),
                   (Tuple([Name("a"), Name("z")]), Scalar("3"))]
    ensures !HasEmptyTuple(d) && PlainEntries(d) == []
    ensures TupleEntries(d) ==
      [([Name("a"), Name("x")], Scalar("1")), ([Name("b"), Name("y")], Scalar("2")), ([Name("a"), Name("z")], Scalar("3"))]
  {
    assert d[2..][1..] == [] && d[1..][1..] == d[2..];
    assert TupleEntries(d[2..]) == [([Name("a"), Name("z")], Scalar("3"))];
    assert PlainEntries(d[2..]) == [];
    assert PlainEntries(d[1..]) == [];
  }

  /** Grouping the example below: the head `'a'` heads the first and the third group. */
  lemma SplitGroupsExample(ts: seq<(seq<Key>, Value)>)
    requires ts == [([Name("a"), Name("x")], Scalar("1")), ([Name("b"), Name("y")], Scalar("2")), ([Name("a"), Name("z")], Scalar("3"))]
    ensures Headed(ts) && GroupByHead(ts) == [(Name("a"), [ts[0]]), (Name("b"), [ts[1]]), (Name("a"), [ts[2]])]
  {
    var t2 := ts[2..];
    assert t2 == [ts[2]] && t2[1..] == [];
    GroupStarts(t2);
    assert GroupByHead(t2) == [(Name("a"), [ts[2]])];
    var t1 := ts[1..];
    assert t1[1..] == t2 && t1[0] == ts[1];
    GroupStarts(t1);
    assert GroupByHead(t1) == [(Name("b"), [ts[1]]), (Name("a"), [ts[2]])];
    GroupStarts(ts);
  }

  /** A tuple whose head differs from the next one's starts a group of its own. */
  lemma GroupStarts(ts: seq<(seq<Key>, Value)>)
    requires Headed(ts) && |ts| >= 1
    requires |ts| == 1 || ts[1].0[0] != ts[0].0[0]
    ensures GroupByHead(ts) == [(ts[0].0[0], [ts[0]])] + GroupByHead(ts[1..])
  {
  }

  /** The groups `delinearize` forms from the tuple keys of `d`. */
  function Groups(d: seq<(Key, Value)>): seq<(Key, seq<(seq<Key>, Value)>)>
    requires !HasEmptyTuple(d)
  {
    HeadedUnlessEmptyTuple(d);
    GroupByHead(TupleEntries(d))
  }

  /**
   * When a head heads several groups, as in the example above, the last of them wins: the
   * result binds the head to that group's delinearized inner dict only.
   */
  lemma LastGroupWins(d: seq<(Key, Value)>, g: nat)
    requires Delinearized(d).Ok?
    requires !HasEmptyTuple(d) && g < |Groups(d)| && forall j :: g < j < |Groups(d)| ==> Groups(d)[j].0 != Groups(d)[g].0
    ensures Delinearized(InnerDict(Groups(d)[g].1)).Ok?
    ensures Get(Delinearized(d).value, Groups(d)[g].0) == Some(Dict(Delinearized(InnerDict(Groups(d)[g].1)).value))
  {
    HeadedUnlessEmptyTuple(d);
    GroupsOfDictBelow(d);
    var gs := Groups(d);
    var news := DelinearizeGroups(gs, MaxKeySize(d)).value;
    DelinearizeGroupsAt(gs, MaxKeySize(d), g);
    forall j | g < j < |news| ensures news[j].0 != news[g].0 {
    }
    AssignAllLast([], news, g);
    var newDict := AssignAll([], news);
    assert news[g].0 in KeysOf(newDict);
    AssignAllDistinct([], news);
    var i :| 0 <= i < |newDict| && KeysOf(newDict)[i] == news[g].0;
    AssignAllNewGet(PlainEntries(d), newDict, i);
    DistinctGet(newDict, i);
  }

  /** The keys `linearize` builds from string keys: a string, or a pair of a key and such a key. */
  predicate Nested(k: Key)
  {
    match k
    case Name(_) => true
    case Tuple(ps) => |ps| == 2 && Nested(ps[1])
  }

  /** A path of strings nests into a key of that shape. */
  lemma {:induction false} PathKeyNested(path: seq<Key>)
    requires |path| >= 1 && forall j :: 0 <= j < |path| ==> path[j].Name?
    ensures Nested(PathKey(path))
  {
    if |path| > 1 {
      PathKeyNested(path[1..]);
    }
  }

  /** The inner dict of a group of nested pairs has nested keys again. */
  lemma InnerNested(ms: seq<(seq<Key>, Value)>)
    requires forall j :: 0 <= j < |ms| ==> |ms[j].0| == 2 && Nested(ms[j].0[1])
    ensures Headed(ms) && forall i :: 0 <= i < |InnerDict(ms)| ==> Nested(InnerDict(ms)[i].0)
  {
    var pairs := seq(|ms|, j requires 0 <= j < |ms| => (Extract(ms[j].0[1..]), ms[j].1));
    AssignAllKeys([], pairs);
    forall j | 0 <= j < |ms| ensures Nested(pairs[j].0) {
      assert ms[j].0[1..] == [ms[j].0[1]];
    }
    var inner := InnerDict(ms);
    assert inner == AssignAll([], pairs);
    forall i | 0 <= i < |inner| ensures Nested(inner[i].0) {
      assert KeysOf(inner)[i] == inner[i].0;
      assert inner[i].0 in KeysOf(inner);
      assert inner[i].0 in KeysOf(pairs);
      var j :| 0 <= j < |pairs| && KeysOf(pairs)[j] == inner[i].0;
    }
  }

  /** `delinearize` never fails on a dict whose keys all have the shape `linearize` gives them. */
  lemma {:induction false} NestedDelinearizes(d: seq<(Key, Value)>)
    requires forall i :: 0 <= i < |d| ==> Nested(d[i].0)
    ensures Delinearized(d).Ok?
    decreases MaxKeySize(d), 1
  {
    assert !HasEmptyTuple(d) by {
      forall i | 0 <= i < |d| ensures d[i].0 != Tuple([]) {
      }
    }
    HeadedUnlessEmptyTuple(d);
    GroupsOfDictBelow(d);
    var ts := TupleEntries(d);
    var gs := GroupByHead(ts);
    forall i, j | 0 <= i < |gs| && 0 <= j < |gs[i].1| ensures |gs[i].1[j].0| == 2 && Nested(gs[i].1[j].0[1]) {
      var m := gs[i].1[j];
      assert m in ts;
      var t :| 0 <= t < |ts| && ts[t] == m;
      assert (Tuple(m.0), m.1) in d;
    }
    GroupsDelinearize(gs, MaxKeySize(d));
  }

  lemma {:induction false} GroupsDelinearize(gs: seq<(Key, seq<(seq<Key>, Value)>)>, bound: nat)
    requires GroupsBelow(gs, bound)
    requires forall i, j :: 0 <= i < |gs| && 0 <= j < |gs[i].1| ==> |gs[i].1[j].0| == 2 && Nested(gs[i].1[j].0[1])
    ensures DelinearizeGroups(gs, bound).Ok?
    decreases bound, 0
  {
    forall i | 0 <= i < |gs| ensures Delinearized(InnerDict(gs[i].1)).Ok? {
      InnerNested(gs[i].1);
      InnerSmaller(gs[i].1, bound);
      NestedDelinearizes(InnerDict(gs[i].1));
    }
    DelinearizeGroupsOk(gs, bound);
  }
}
