/**
 * The nested configurations the utilities work on: a value is a scalar, a Python list or a
 * mapping; keys are strings or (possibly nested) tuples of keys. Mappings are Python dicts,
 * modelled as insertion-ordered association lists.
 */
module Config {
  import opened Results
  import opened PyDict

  /** A dictionary key: a string, or a tuple of keys. */
  datatype Key = Name(name: string) | Tuple(parts: seq<Key>)

  /**
   * A configuration value. `Scalar` stands for every value that is neither a mapping nor a
   * `list` (numbers, strings, booleans, `None`, tuples); only its identity matters.
   */
  datatype Value = Scalar(literal: string) | List(elems: seq<Value>) | Dict(entries: seq<(Key, Value)>)

  /** Every mapping in `v` has distinct keys, as every Python dict does. */
  ghost predicate WfValue(v: Value)
    decreases v
  {
    match v
    case Scalar(_) => true
    case List(xs) => forall i :: 0 <= i < |xs| ==> WfValue(xs[i])
    case Dict(es) => DistinctKeys(es) && forall i :: 0 <= i < |es| ==> WfValue(es[i].1)
  }

  /** Python's `==` on configuration values: mappings compare regardless of key order. */
  ghost predicate Same(a: Value, b: Value)
    decreases a
  {
    match a
    case Scalar(_) => b == a
    case List(xs) =>
      b.List? && |xs| == |b.elems| && forall i :: 0 <= i < |xs| ==> Same(xs[i], b.elems[i])
    case Dict(es) =>
      && b.Dict?
      && (forall k :: k in KeysOf(es) <==> k in KeysOf(b.entries))
      && forall i :: 0 <= i < |es| ==>
           var w := Get(b.entries, es[i].0); w.Some? && Same(es[i].1, w.value)
  }

  lemma {:induction false} SameRefl(v: Value)
    requires WfValue(v)
    ensures Same(v, v)
    decreases v
  {
    match v
    case Scalar(_) =>
    case List(xs) =>
      forall i | 0 <= i < |xs| ensures Same(xs[i], xs[i]) {
        SameRefl(xs[i]);
      }
    case Dict(es) =>
      forall i | 0 <= i < |es| ensures Get(es, es[i].0) == Some(es[i].1) && Same(es[i].1, es[i].1) {
        DistinctGet(es, i);
        SameRefl(es[i].1);
      }
  }

  /**
   * The leaves of a mapping in depth-first order, each with the path of keys leading to it.
   * Every value that is not a mapping is a leaf; an empty mapping contributes nothing.
   */
  function Leaves(es: seq<(Key, Value)>): (r: seq<(seq<Key>, Value)>)
    ensures forall i :: 0 <= i < |r| ==> |r[i].0| >= 1 && !r[i].1.Dict?
    decreases es, 0
  {
    if es == [] then []
    else Leaves(es[..|es| - 1]) + EntryLeaves(es[|es| - 1])
  }

  /** The leaves below one entry, their paths starting with its key. */
  function EntryLeaves(e: (Key, Value)): (r: seq<(seq<Key>, Value)>)
    ensures forall i :: 0 <= i < |r| ==> |r[i].0| >= 1 && r[i].0[0] == e.0 && !r[i].1.Dict?
    decreases e, 1
  {
    if e.1.Dict? then
      var below := Leaves(e.1.entries);
      seq(|below|, i requires 0 <= i < |below| => ([e.0] + below[i].0, below[i].1))
    else [([e.0], e.1)]
  }

  lemma {:induction false} LeavesAppend(a: seq<(Key, Value)>, b: seq<(Key, Value)>)
    ensures Leaves(a + b) == Leaves(a) + Leaves(b)
    decreases |b|
  {
    if b == [] {
      assert a + b == a;
    } else {
      assert (a + b)[..|a + b| - 1] == a + b[..|b| - 1];
      assert (a + b)[|a + b| - 1] == b[|b| - 1];
      LeavesAppend(a, b[..|b| - 1]);
    }
  }

  lemma LeavesSingle(e: (Key, Value))
    ensures Leaves([e]) == EntryLeaves(e)
  {
    assert [e][..0] == [];
  }

  /**
   * The key `linearize` gives a leaf at `path`: a single key stays as it is, a longer path
   * nests into pairs, `(k1, (k2, (… , kn)))`.
   */
  function PathKey(path: seq<Key>): Key
    requires |path| >= 1
  {
    if |path| == 1 then path[0] else Tuple([path[0], PathKey(path[1..])])
  }

  /** All keys of every mapping in `v` are strings. */
  ghost predicate AllNames(v: Value)
    decreases v
  {
    match v
    case Scalar(_) => true
    case List(xs) => true
    case Dict(es) => forall i :: 0 <= i < |es| ==> es[i].0.Name? && AllNames(es[i].1)
  }

  /** In a mapping whose keys are all strings, every leaf path is made of strings. */
  lemma {:induction false} LeavesNamed(es: seq<(Key, Value)>)
    requires AllNames(Dict(es))
    ensures forall i, j :: 0 <= i < |Leaves(es)| && 0 <= j < |Leaves(es)[i].0| ==> Leaves(es)[i].0[j].Name?
    decreases es, 0
  {
    if es != [] {
      var init, last := es[..|es| - 1], es[|es| - 1];
      assert AllNames(Dict(init)) by {
        assert forall i :: 0 <= i < |init| ==> init[i] == es[i];
      }
      LeavesNamed(init);
      EntryLeavesNamed(last);
      var a, b := Leaves(init), EntryLeaves(last);
      assert forall i :: 0 <= i < |a| ==> (a + b)[i] == a[i];
      assert forall i :: |a| <= i < |a + b| ==> (a + b)[i] == b[i - |a|];
    }
  }

  lemma {:induction false} EntryLeavesNamed(e: (Key, Value))
    requires e.0.Name? && AllNames(e.1)
    ensures forall i, j :: 0 <= i < |EntryLeaves(e)| && 0 <= j < |EntryLeaves(e)[i].0| ==> EntryLeaves(e)[i].0[j].Name?
    decreases e, 1
  {
    if e.1.Dict? {
      assert e.1 == Dict(e.1.entries);
      LeavesNamed(e.1.entries);
      var below := Leaves(e.1.entries);
      forall i, j | 0 <= i < |EntryLeaves(e)| && 0 <= j < |EntryLeaves(e)[i].0| ensures EntryLeaves(e)[i].0[j].Name? {
        assert EntryLeaves(e)[i].0 == [e.0] + below[i].0;
        if j > 0 {
          assert EntryLeaves(e)[i].0[j] == below[i].0[j - 1];
        }
      }
    }
  }
}
