/**
 * `delinearize` undoes `linearize`: rebuilding a configuration from the keys `linearize`
 * gives its leaves, each paired with a new value, yields the configuration with its leaves
 * replaced by those values. This is what `make_grid` relies on, once per combination.
 */
module RoundTrip {
  import opened Results
  import opened PyDict
  import opened Config
  import opened Linearization

  /** Every mapping nested in `v` has at least one entry. */
  ghost predicate NoEmptyDicts(v: Value)
    decreases v
  {
    match v
    case Dict(es) => es != [] && forall i :: 0 <= i < |es| ==> NoEmptyDicts(es[i].1)
    case _ => true
  }

  /**
   * The configurations `delinearize` can rebuild from their linearization: every mapping has
   * distinct string keys, and no nested mapping is empty (an empty one leaves no key behind).
   */
  ghost predicate Linearizable(es: seq<(Key, Value)>)
  {
    && WfValue(Dict(es))
    && AllNames(Dict(es))
    && forall i :: 0 <= i < |es| ==> NoEmptyDicts(es[i].1)
  }

  /** Whether every value is well formed. */
  ghost predicate WfValues(vals: seq<Value>)
  {
    forall j :: 0 <= j < |vals| ==> WfValue(vals[j])
  }

  lemma LinearizableSplit(es: seq<(Key, Value)>)
    requires Linearizable(es) && es != []
    ensures Linearizable(es[..|es| - 1])
    ensures KeysOf(es) == KeysOf(es[..|es| - 1]) + [es[|es| - 1].0]
    ensures es[|es| - 1].0.Name? && es[|es| - 1].0 !in KeysOf(es[..|es| - 1])
    ensures es[|es| - 1].1.Dict? ==> es[|es| - 1].1.entries != [] && Linearizable(es[|es| - 1].1.entries)
  {
    var init, last := es[..|es| - 1], es[|es| - 1];
    assert forall i :: 0 <= i < |init| ==> init[i] == es[i];
    assert es == init + [last];
    KeysOfAppend(init, [last]);
    forall i | 0 <= i < |init| ensures KeysOf(init)[i] != last.0 {
      assert es[i].0 != es[|es| - 1].0;
    }
    if last.1.Dict? {
      assert WfValue(last.1) && AllNames(last.1) && NoEmptyDicts(last.1);
    }
  }

  /** The `linearize` key of each leaf path, paired with a new value. */
  function Relabel(ls: seq<(seq<Key>, Value)>, vals: seq<Value>): (r: seq<(Key, Value)>)
    requires Headed(ls) && |vals| == |ls|
    ensures |r| == |ls|
  {
    seq(|ls|, i requires 0 <= i < |ls| => (PathKey(ls[i].0), vals[i]))
  }

  /** `dict(zip(keys, values))` for the keys `linearize` gives the leaves of `es`. */
  function LinDict(es: seq<(Key, Value)>, vals: seq<Value>): seq<(Key, Value)>
    requires |vals| == |Leaves(es)|
  {
    AssignAll([], Relabel(Leaves(es), vals))
  }

  /** The configuration `es` with its leaves, in depth-first order, replaced by `vals`. */
  function Fill(es: seq<(Key, Value)>, vals: seq<Value>): (r: seq<(Key, Value)>)
    requires |vals| == |Leaves(es)|
    ensures KeysOf(r) == KeysOf(es)
    decreases es, 0
  {
    if es == [] then []
    else
      var n := |Leaves(es[..|es| - 1])|;
      var init := Fill(es[..|es| - 1], vals[..n]);
      var last := FillEntry(es[|es| - 1], vals[n..]);
      KeysOfAppend(init, [last]);
      KeysOfAppend(es[..|es| - 1], [es[|es| - 1]]);
      assert es == es[..|es| - 1] + [es[|es| - 1]];
      init + [last]
  }

  function FillEntry(e: (Key, Value), vs: seq<Value>): (r: (Key, Value))
    requires |vs| == |EntryLeaves(e)|
    ensures r.0 == e.0
    decreases e, 1
  {
    if e.1.Dict? then (e.0, Dict(Fill(e.1.entries, vs))) else (e.0, vs[0])
  }

  /** The leaf values of a list of leaves. */
  function LeafValues(ls: seq<(seq<Key>, Value)>): (r: seq<Value>)
    ensures |r| == |ls|
  {
    seq(|ls|, i requires 0 <= i < |ls| => ls[i].1)
  }

  /** What `delinearize` returns for `d`, or nothing when it raises. */
  function DelinearizedOr(d: seq<(Key, Value)>): seq<(Key, Value)>
  {
    if Delinearized(d).Ok? then Delinearized(d).value else []
  }

  /** The entry `delinearize` rebuilds for `e`: the new leaf value, or the rebuilt mapping. */
  function RebuiltEntry(e: (Key, Value), vs: seq<Value>): (r: (Key, Value))
    requires |vs| == |EntryLeaves(e)|
    ensures r.0 == e.0
  {
    if e.1.Dict? then (e.0, Dict(DelinearizedOr(LinDict(e.1.entries, vs)))) else (e.0, vs[0])
  }

  /** The entries `delinearize` rebuilds, in the order of `es`. */
  function Rebuilt(es: seq<(Key, Value)>, vals: seq<Value>): (r: seq<(Key, Value)>)
    requires |vals| == |Leaves(es)|
    ensures KeysOf(r) == KeysOf(es)
  {
    if es == [] then []
    else
      var n := |Leaves(es[..|es| - 1])|;
      var init := Rebuilt(es[..|es| - 1], vals[..n]);
      var last := RebuiltEntry(es[|es| - 1], vals[n..]);
      KeysOfAppend(init, [last]);
      KeysOfAppend(es[..|es| - 1], [es[|es| - 1]]);
      assert es == es[..|es| - 1] + [es[|es| - 1]];
      init + [last]
  }

  /** The rebuilt entries of the leaves of `es` (those whose value is not a mapping). */
  function PlainPart(es: seq<(Key, Value)>, vals: seq<Value>): seq<(Key, Value)>
    requires |vals| == |Leaves(es)|
  {
    if es == [] then []
    else
      var n := |Leaves(es[..|es| - 1])|;
      PlainPart(es[..|es| - 1], vals[..n]) +
        if es[|es| - 1].1.Dict? then [] else [RebuiltEntry(es[|es| - 1], vals[n..])]
  }

  /** The rebuilt entries of the mappings of `es`. */
  function NewsPart(es: seq<(Key, Value)>, vals: seq<Value>): seq<(Key, Value)>
    requires |vals| == |Leaves(es)|
  {
    if es == [] then []
    else
      var n := |Leaves(es[..|es| - 1])|;
      NewsPart(es[..|es| - 1], vals[..n]) +
        if es[|es| - 1].1.Dict? then [RebuiltEntry(es[|es| - 1], vals[n..])] else []
  }

  /** The members of a group headed by `k`, as `delinearize` filters them: `((k, key), value)`. */
  function Members(k: Key, pairs: seq<(Key, Value)>): (r: seq<(seq<Key>, Value)>)
    ensures |r| == |pairs| && Headed(r)
  {
    seq(|pairs|, j requires 0 <= j < |pairs| => ([k, pairs[j].0], pairs[j].1))
  }

  /** The tuple entries the leaves below a mapping entry become. */
  function EntryBlock(e: (Key, Value), vs: seq<Value>): seq<(seq<Key>, Value)>
    requires |vs| == |EntryLeaves(e)|
  {
    if e.1.Dict? then Members(e.0, Relabel(Leaves(e.1.entries), vs)) else []
  }

  /** The tuple entries of the linearized dict: one block per mapping of `es`. */
  function TupleBlocks(es: seq<(Key, Value)>, vals: seq<Value>): seq<(seq<Key>, Value)>
    requires |vals| == |Leaves(es)|
  {
    if es == [] then []
    else
      var n := |Leaves(es[..|es| - 1])|;
      TupleBlocks(es[..|es| - 1], vals[..n]) + EntryBlock(es[|es| - 1], vals[n..])
  }

  /** The groups of the linearized dict: one per mapping of `es`, headed by its key. */
  function ExpectedGroups(es: seq<(Key, Value)>, vals: seq<Value>): seq<(Key, seq<(seq<Key>, Value)>)>
    requires |vals| == |Leaves(es)|
  {
    if es == [] then []
    else
      var n := |Leaves(es[..|es| - 1])|;
      var last := es[|es| - 1];
      ExpectedGroups(es[..|es| - 1], vals[..n]) +
        if last.1.Dict? then [(last.0, EntryBlock(last, vals[n..]))] else []
  }

  /** `d.get(k)` on two dicts laid end to end: the first one that has `k` answers. */
  lemma {:induction false} GetAppend<V>(a: seq<(Key, V)>, b: seq<(Key, V)>, k: Key)
    ensures Get(a + b, k) == if Get(a, k).Some? then Get(a, k) else Get(b, k)
  {
    if a == [] {
      assert a + b == b;
    } else {
      assert (a + b)[1..] == a[1..] + b;
      GetAppend(a[1..], b, k);
    }
  }

  lemma {:induction false} TupleEntriesAppend(a: seq<(Key, Value)>, b: seq<(Key, Value)>)
    ensures TupleEntries(a + b) == TupleEntries(a) + TupleEntries(b)
    ensures PlainEntries(a + b) == PlainEntries(a) + PlainEntries(b)
  {
    if a == [] {
      assert a + b == b;
    } else {
      assert (a + b)[1..] == a[1..] + b;
      TupleEntriesAppend(a[1..], b);
    }
  }

  lemma RelabelAppend(a: seq<(seq<Key>, Value)>, b: seq<(seq<Key>, Value)>, va: seq<Value>, vb: seq<Value>)
    requires Headed(a) && Headed(b) && |va| == |a| && |vb| == |b|
    ensures Headed(a + b) && Relabel(a + b, va + vb) == Relabel(a, va) + Relabel(b, vb)
  {
    assert forall i :: 0 <= i < |a| ==> (a + b)[i] == a[i] && (va + vb)[i] == va[i];
    assert forall i :: |a| <= i < |a + b| ==> (a + b)[i] == b[i - |a|] && (va + vb)[i] == vb[i - |a|];
  }

  /** Nesting pairs under `k` makes them all tuple entries, members of a group headed by `k`. */
  lemma {:induction false} NestSplit(k: Key, pairs: seq<(Key, Value)>)
    ensures TupleEntries(Nest(k, pairs)) == Members(k, pairs)
    ensures PlainEntries(Nest(k, pairs)) == []
  {
    if pairs != [] {
      assert Nest(k, pairs)[1..] == Nest(k, pairs[1..]);
      assert Members(k, pairs) == [([k, pairs[0].0], pairs[0].1)] + Members(k, pairs[1..]);
      NestSplit(k, pairs[1..]);
    }
  }

  /** The keys `linearize` gives the leaves below one entry, paired with new values. */
  lemma EntryRelabel(e: (Key, Value), vs: seq<Value>)
    requires |vs| == |EntryLeaves(e)|
    ensures Relabel(EntryLeaves(e), vs) ==
      if e.1.Dict? then Nest(e.0, Relabel(Leaves(e.1.entries), vs)) else [(e.0, vs[0])]
  {
    var ls := EntryLeaves(e);
    if e.1.Dict? {
      var below := Leaves(e.1.entries);
      forall j | 0 <= j < |ls| ensures PathKey(ls[j].0) == Tuple([e.0, PathKey(below[j].0)]) {
        assert ls[j].0 == [e.0] + below[j].0;
        assert ls[j].0[1..] == below[j].0;
      }
    }
  }

  /** The inner dict of a group of members is the dict of the pairs they came from. */
  lemma InnerOfMembers(k: Key, pairs: seq<(Key, Value)>)
    ensures InnerDict(Members(k, pairs)) == AssignAll([], pairs)
  {
    var ms := Members(k, pairs);
    var inner := seq(|ms|, j requires 0 <= j < |ms| => (Extract(ms[j].0[1..]), ms[j].1));
    forall j | 0 <= j < |ms| ensures inner[j] == pairs[j] {
      assert ms[j].0[1..] == [pairs[j].0];
    }
    assert inner == pairs;
  }

  lemma HeadedAppend(a: seq<(seq<Key>, Value)>, b: seq<(seq<Key>, Value)>)
    requires Headed(a) && Headed(b)
    ensures Headed(a + b)
  {
    assert forall i :: 0 <= i < |a| ==> (a + b)[i] == a[i];
    assert forall i :: |a| <= i < |a + b| ==> (a + b)[i] == b[i - |a|];
  }

  /** One step of `groupby`: `x` joins the first group when the heads agree, or starts its own. */
  function Push(x: (seq<Key>, Value), r: seq<(Key, seq<(seq<Key>, Value)>)>): seq<(Key, seq<(seq<Key>, Value)>)>
    requires |x.0| >= 1
  {
    if r != [] && r[0].0 == x.0[0] then [(x.0[0], [x] + r[0].1)] + r[1..] else [(x.0[0], [x])] + r
  }

  lemma GroupByHeadUnfold(s: seq<(seq<Key>, Value)>)
    requires Headed(s) && s != []
    ensures GroupByHead(s) == Push(s[0], GroupByHead(s[1..]))
  {
  }

  lemma PushAppend(x: (seq<Key>, Value), ra: seq<(Key, seq<(seq<Key>, Value)>)>, rb: seq<(Key, seq<(seq<Key>, Value)>)>)
    requires |x.0| >= 1 && ra != []
    ensures Push(x, ra + rb) == Push(x, ra) + rb
  {
    assert (ra + rb)[0] == ra[0];
    assert (ra + rb)[1..] == ra[1..] + rb;
  }

  /** `groupby` on two runs whose meeting heads differ groups each run on its own. */
  lemma {:induction false} GroupByHeadAppend(a: seq<(seq<Key>, Value)>, b: seq<(seq<Key>, Value)>)
    requires Headed(a) && Headed(b) && a != [] && b != []
    requires a[|a| - 1].0[0] != b[0].0[0]
    ensures Headed(a + b) && GroupByHead(a + b) == GroupByHead(a) + GroupByHead(b)
  {
    HeadedAppend(a, b);
    var ab := a + b;
    assert ab[0] == a[0] && ab[1..] == a[1..] + b;
    GroupByHeadUnfold(ab);
    GroupByHeadUnfold(a);
    if |a| == 1 {
      assert a[1..] == [] && ab[1..] == b;
    } else {
      var tail := a[1..];
      assert tail[|tail| - 1] == a[|a| - 1];
      GroupByHeadAppend(tail, b);
      PushAppend(a[0], GroupByHead(tail), GroupByHead(b));
    }
  }

  /** `groupby` on a run with a single head gives one group. */
  lemma {:induction false} GroupByHeadOneHead(a: seq<(seq<Key>, Value)>, h: Key)
    requires Headed(a) && a != [] && forall i :: 0 <= i < |a| ==> a[i].0[0] == h
    ensures GroupByHead(a) == [(h, a)]
  {
    GroupByHeadUnfold(a);
    if |a| == 1 {
      assert a[1..] == [] && a == [a[0]];
    } else {
      GroupByHeadOneHead(a[1..], h);
      assert [a[0]] + a[1..] == a;
    }
  }

  /** The head of a key: the first part of a tuple, the key itself otherwise. */
  function KeyHead(k: Key): Key
  {
    if k.Tuple? && |k.parts| >= 1 then k.parts[0] else k
  }

  /** The `linearize` key of a path starting with a string has that string as its head. */
  lemma PathKeyHead(path: seq<Key>)
    requires |path| >= 1 && path[0].Name?
    ensures KeyHead(PathKey(path)) == path[0] && PathKey(path) != Tuple([])
    ensures PathKey(path).Tuple? <==> |path| > 1
  {
    if |path| > 1 {
      assert PathKey(path) == Tuple([path[0], PathKey(path[1..])]);
    }
  }

  /** Every leaf path starts with a key of the mapping. */
  lemma {:induction false} LeavesHeads(es: seq<(Key, Value)>)
    ensures forall i :: 0 <= i < |Leaves(es)| ==> Leaves(es)[i].0[0] in KeysOf(es)
  {
    if es != [] {
      var init, last := es[..|es| - 1], es[|es| - 1];
      LeavesHeads(init);
      assert es == init + [last];
      KeysOfAppend(init, [last]);
      var a, b := Leaves(init), EntryLeaves(last);
      var ls := a + b;
      assert Leaves(es) == ls;
      assert KeysOf(es) == KeysOf(init) + [last.0];
      forall i | 0 <= i < |ls| ensures ls[i].0[0] in KeysOf(es) {
        if i < |a| {
          assert ls[i] == a[i];
        } else {
          assert ls[i] == b[i - |a|];
        }
      }
    }
  }

  /** A non-empty configuration without empty mappings has a leaf. */
  lemma {:induction false} LeavesNonEmpty(es: seq<(Key, Value)>)
    requires Linearizable(es) && es != []
    ensures Leaves(es) != []
    decreases es, 0
  {
    LinearizableSplit(es);
    EntryLeavesNonEmpty(es[|es| - 1]);
  }

  lemma {:induction false} EntryLeavesNonEmpty(e: (Key, Value))
    requires e.1.Dict? ==> e.1.entries != [] && Linearizable(e.1.entries)
    ensures EntryLeaves(e) != []
    decreases e, 1
  {
    if e.1.Dict? {
      LeavesNonEmpty(e.1.entries);
    }
  }

  /** The leaves below one top-level entry: a block of tuple entries for a mapping, one plain entry otherwise. */
  lemma EntrySplit(e: (Key, Value), vs: seq<Value>)
    requires |vs| == |EntryLeaves(e)| && e.0.Name?
    ensures TupleEntries(Relabel(EntryLeaves(e), vs)) == EntryBlock(e, vs)
    ensures PlainEntries(Relabel(EntryLeaves(e), vs)) == if e.1.Dict? then [] else [RebuiltEntry(e, vs)]
  {
    EntryRelabel(e, vs);
    var dl := Relabel(EntryLeaves(e), vs);
    if e.1.Dict? {
      NestSplit(e.0, Relabel(Leaves(e.1.entries), vs));
    } else {
      assert dl == [(e.0, vs[0])] && dl[1..] == [];
    }
  }

  /** Whether every top-level key of `es` is a string. */
  ghost predicate TopNames(es: seq<(Key, Value)>)
  {
    forall i :: 0 <= i < |es| ==> es[i].0.Name?
  }

  /** The linearized leaves of `es` are those of all but its last entry, then those of its last entry. */
  lemma RelabelSnoc(es: seq<(Key, Value)>, vals: seq<Value>)
    requires es != [] && |vals| == |Leaves(es)|
    ensures var n := |Leaves(es[..|es| - 1])|;
      Relabel(Leaves(es), vals) == Relabel(Leaves(es[..|es| - 1]), vals[..n]) + Relabel(EntryLeaves(es[|es| - 1]), vals[n..])
  {
    var init, last := es[..|es| - 1], es[|es| - 1];
    var n := |Leaves(init)|;
    assert Leaves(es) == Leaves(init) + EntryLeaves(last);
    assert vals == vals[..n] + vals[n..];
    RelabelAppend(Leaves(init), EntryLeaves(last), vals[..n], vals[n..]);
  }

  /** The tuple entries of the linearized dict of `es`: one block per mapping. */
  lemma {:induction false} TupleSplit(es: seq<(Key, Value)>, vals: seq<Value>)
    requires TopNames(es) && |vals| == |Leaves(es)|
    ensures TupleEntries(Relabel(Leaves(es), vals)) == TupleBlocks(es, vals)
  {
    if es != [] {
      var init, last := es[..|es| - 1], es[|es| - 1];
      var n := |Leaves(init)|;
      assert TopNames(init) by {
        assert forall i :: 0 <= i < |init| ==> init[i] == es[i];
      }
      TupleSplit(init, vals[..n]);
      RelabelSnoc(es, vals);
      TupleEntriesAppend(Relabel(Leaves(init), vals[..n]), Relabel(EntryLeaves(last), vals[n..]));
      EntrySplit(last, vals[n..]);
    }
  }

  /** The plain entries of the linearized dict of `es`: the leaves of its top level. */
  lemma {:induction false} PlainSplit(es: seq<(Key, Value)>, vals: seq<Value>)
    requires TopNames(es) && |vals| == |Leaves(es)|
    ensures PlainEntries(Relabel(Leaves(es), vals)) == PlainPart(es, vals)
  {
    if es != [] {
      var init, last := es[..|es| - 1], es[|es| - 1];
      var n := |Leaves(init)|;
      assert TopNames(init) by {
        assert forall i :: 0 <= i < |init| ==> init[i] == es[i];
      }
      PlainSplit(init, vals[..n]);
      RelabelSnoc(es, vals);
      TupleEntriesAppend(Relabel(Leaves(init), vals[..n]), Relabel(EntryLeaves(last), vals[n..]));
      EntrySplit(last, vals[n..]);
    }
  }

  lemma EntryBlockHeads(e: (Key, Value), vs: seq<Value>)
    requires |vs| == |EntryLeaves(e)|
    ensures forall i :: 0 <= i < |EntryBlock(e, vs)| ==> |EntryBlock(e, vs)[i].0| >= 1 && EntryBlock(e, vs)[i].0[0] == e.0
  {
  }

  /** Each tuple entry of the blocks has a head, and that head is a key of `es`. */
  lemma {:induction false} BlockHeads(es: seq<(Key, Value)>, vals: seq<Value>)
    requires |vals| == |Leaves(es)|
    ensures Headed(TupleBlocks(es, vals))
    ensures forall i :: 0 <= i < |TupleBlocks(es, vals)| ==> TupleBlocks(es, vals)[i].0[0] in KeysOf(es)
  {
    if es != [] {
      var init, last := es[..|es| - 1], es[|es| - 1];
      var n := |Leaves(init)|;
      BlockHeads(init, vals[..n]);
      assert es == init + [last];
      KeysOfAppend(init, [last]);
      assert KeysOf(es) == KeysOf(init) + [last.0];
      var a, b := TupleBlocks(init, vals[..n]), EntryBlock(last, vals[n..]);
      EntryBlockHeads(last, vals[n..]);
      var ts := a + b;
      assert TupleBlocks(es, vals) == ts;
      forall i | 0 <= i < |ts| ensures |ts[i].0| >= 1 && ts[i].0[0] in KeysOf(es) {
        if i < |a| {
          assert ts[i] == a[i];
        } else {
          assert ts[i] == b[i - |a|];
        }
      }
    }
  }

  /** `groupby` on the blocks gives one group per mapping of `es`, in order. */
  lemma {:induction false} GroupsOfBlocks(es: seq<(Key, Value)>, vals: seq<Value>)
    requires Linearizable(es) && |vals| == |Leaves(es)|
    ensures Headed(TupleBlocks(es, vals)) && GroupByHead(TupleBlocks(es, vals)) == ExpectedGroups(es, vals)
  {
    BlockHeads(es, vals);
    if es != [] {
      var init, last := es[..|es| - 1], es[|es| - 1];
      var n := |Leaves(init)|;
      var vi, vl := vals[..n], vals[n..];
      LinearizableSplit(es);
      GroupsOfBlocks(init, vi);
      BlockHeads(init, vi);
      var a, m := TupleBlocks(init, vi), EntryBlock(last, vl);
      if last.1.Dict? {
        LeavesNonEmpty(last.1.entries);
        assert m != [];
        assert forall i :: 0 <= i < |m| ==> m[i].0[0] == last.0;
        GroupByHeadOneHead(m, last.0);
        if a == [] {
          assert a + m == m;
        } else {
          assert a[|a| - 1].0[0] in KeysOf(init);
          GroupByHeadAppend(a, m);
        }
      } else {
        assert a + m == a;
      }
    }
  }

  /** The `linearize` key of every leaf is headed by a key of `es`, and is never `()`. */
  lemma RelabelHeads(es: seq<(Key, Value)>, vals: seq<Value>)
    requires Linearizable(es) && |vals| == |Leaves(es)|
    ensures forall i :: 0 <= i < |Leaves(es)| ==>
      KeyHead(Relabel(Leaves(es), vals)[i].0) in KeysOf(es) && Relabel(Leaves(es), vals)[i].0 != Tuple([])
  {
    var ls := Leaves(es);
    LeavesHeads(es);
    forall i | 0 <= i < |ls|
      ensures KeyHead(PathKey(ls[i].0)) in KeysOf(es) && PathKey(ls[i].0) != Tuple([])
    {
      var j :| 0 <= j < |es| && KeysOf(es)[j] == ls[i].0[0];
      assert es[j].0.Name?;
      PathKeyHead(ls[i].0);
    }
  }

  lemma NestDistinct(k: Key, pairs: seq<(Key, Value)>)
    requires DistinctKeys(pairs)
    ensures DistinctKeys(Nest(k, pairs))
  {
    var r := Nest(k, pairs);
    forall i, j | 0 <= i < j < |r| ensures r[i].0 != r[j].0 {
      assert r[i].0.parts[1] == pairs[i].0 && r[j].0.parts[1] == pairs[j].0;
    }
  }

  /** Distinct string keys at every level give distinct `linearize` keys. */
  lemma {:induction false} RelabelDistinct(es: seq<(Key, Value)>, vals: seq<Value>)
    requires Linearizable(es) && |vals| == |Leaves(es)|
    ensures DistinctKeys(Relabel(Leaves(es), vals))
    decreases es, 0
  {
    if es != [] {
      var init, last := es[..|es| - 1], es[|es| - 1];
      var n := |Leaves(init)|;
      var vi, vl := vals[..n], vals[n..];
      LinearizableSplit(es);
      RelabelDistinct(init, vi);
      RelabelHeads(init, vi);
      EntryRelabelDistinct(last, vl);
      assert Leaves(es) == Leaves(init) + EntryLeaves(last);
      assert vals == vi + vl;
      RelabelAppend(Leaves(init), EntryLeaves(last), vi, vl);
      var a, b := Relabel(Leaves(init), vi), Relabel(EntryLeaves(last), vl);
      var d := a + b;
      forall i, j | 0 <= i < j < |d| ensures d[i].0 != d[j].0 {
        if j < |a| {
          assert d[i] == a[i] && d[j] == a[j];
        } else if i >= |a| {
          assert d[i] == b[i - |a|] && d[j] == b[j - |a|];
        } else {
          assert d[i] == a[i] && d[j] == b[j - |a|];
          assert KeyHead(a[i].0) in KeysOf(init);
        }
      }
    }
  }

  lemma {:induction false} EntryRelabelDistinct(e: (Key, Value), vs: seq<Value>)
    requires |vs| == |EntryLeaves(e)| && e.0.Name?
    requires e.1.Dict? ==> Linearizable(e.1.entries)
    ensures DistinctKeys(Relabel(EntryLeaves(e), vs))
    ensures forall i :: 0 <= i < |vs| ==> KeyHead(Relabel(EntryLeaves(e), vs)[i].0) == e.0
    decreases e, 1
  {
    EntryRelabel(e, vs);
    if e.1.Dict? {
      RelabelDistinct(e.1.entries, vs);
      NestDistinct(e.0, Relabel(Leaves(e.1.entries), vs));
    }
  }

  /** The round trip holds for the mapping below `e`, if `e` holds one. */
  ghost predicate EntryRoundTrip(e: (Key, Value), vs: seq<Value>)
    requires |vs| == |EntryLeaves(e)|
  {
    e.1.Dict? ==>
      var r := Delinearized(LinDict(e.1.entries, vs));
      r.Ok? && Same(Dict(Fill(e.1.entries, vs)), Dict(r.value))
  }

  /** The round trip holds for every mapping directly below the top level of `es`. */
  ghost predicate SubsRoundTrip(es: seq<(Key, Value)>, vals: seq<Value>)
    requires |vals| == |Leaves(es)|
  {
    es != [] ==>
      var n := |Leaves(es[..|es| - 1])|;
      SubsRoundTrip(es[..|es| - 1], vals[..n]) && EntryRoundTrip(es[|es| - 1], vals[n..])
  }

  /** Delinearizing one more group appends its head, bound to its rebuilt inner dict. */
  lemma DelinearizeGroupsSnoc(gs: seq<(Key, seq<(seq<Key>, Value)>)>, g: (Key, seq<(seq<Key>, Value)>), bound: nat,
                              before: seq<(Key, Value)>, inner: seq<(Key, Value)>)
    requires GroupsBelow(gs + [g], bound) && GroupsBelow(gs, bound) && Headed(g.1)
    requires DelinearizeGroups(gs, bound) == Ok(before) && Delinearized(InnerDict(g.1)) == Ok(inner)
    ensures DelinearizeGroups(gs + [g], bound) == Ok(before + [(g.0, Dict(inner))])
  {
    var all := gs + [g];
    assert all[..|all| - 1] == gs && all[|all| - 1] == g;
  }

  /** Each group's inner dict is the linearization of its mapping, which rebuilds it. */
  lemma {:induction false} NewsOfGroups(es: seq<(Key, Value)>, vals: seq<Value>, bound: nat)
    requires |vals| == |Leaves(es)|
    requires GroupsBelow(ExpectedGroups(es, vals), bound) && SubsRoundTrip(es, vals)
    ensures DelinearizeGroups(ExpectedGroups(es, vals), bound) == Ok(NewsPart(es, vals))
  {
    if es != [] {
      var init, last := es[..|es| - 1], es[|es| - 1];
      var n := |Leaves(init)|;
      var vi, vl := vals[..n], vals[n..];
      var gi := ExpectedGroups(init, vi);
      if last.1.Dict? {
        var pairs := Relabel(Leaves(last.1.entries), vl);
        var g := (last.0, Members(last.0, pairs));
        assert ExpectedGroups(es, vals) == gi + [g];
        assert (gi + [g])[..|gi|] == gi;
        GroupsBelowInit(gi + [g], bound);
        NewsOfGroups(init, vi, bound);
        InnerOfMembers(last.0, pairs);
        assert EntryRoundTrip(last, vl);
        var inner := Delinearized(LinDict(last.1.entries, vl)).value;
        assert Delinearized(InnerDict(g.1)) == Ok(inner);
        DelinearizeGroupsSnoc(gi, g, bound, NewsPart(init, vi), inner);
        assert NewsPart(es, vals) == NewsPart(init, vi) + [(last.0, Dict(inner))];
      } else {
        assert ExpectedGroups(es, vals) == gi;
        assert NewsPart(es, vals) == NewsPart(init, vi) + [] == NewsPart(init, vi);
        NewsOfGroups(init, vi, bound);
      }
    }
  }

  /** The mappings of `es` are rebuilt under distinct keys of `es`. */
  lemma {:induction false} NewsDistinct(es: seq<(Key, Value)>, vals: seq<Value>)
    requires Linearizable(es) && |vals| == |Leaves(es)|
    ensures DistinctKeys(NewsPart(es, vals))
    ensures forall k :: k in KeysOf(NewsPart(es, vals)) ==> k in KeysOf(es)
  {
    if es != [] {
      var init, last := es[..|es| - 1], es[|es| - 1];
      var n := |Leaves(init)|;
      var vi, vl := vals[..n], vals[n..];
      LinearizableSplit(es);
      NewsDistinct(init, vi);
      var a := NewsPart(init, vi);
      if last.1.Dict? {
        var x := RebuiltEntry(last, vl);
        AssignAppend(a, x.0, x.1);
        AssignDistinct(a, x.0, x.1);
      } else {
        assert NewsPart(es, vals) == a;
      }
    }
  }

  /** The rebuilt entries read as the mappings first, then the leaves. */
  lemma {:induction false} RebuiltGet(es: seq<(Key, Value)>, vals: seq<Value>, k: Key)
    requires Linearizable(es) && |vals| == |Leaves(es)|
    ensures Get(Rebuilt(es, vals), k) ==
      if Get(NewsPart(es, vals), k).Some? then Get(NewsPart(es, vals), k) else Get(PlainPart(es, vals), k)
  {
    if es != [] {
      var init, last := es[..|es| - 1], es[|es| - 1];
      var n := |Leaves(init)|;
      var vi, vl := vals[..n], vals[n..];
      LinearizableSplit(es);
      RebuiltGet(init, vi, k);
      var x := RebuiltEntry(last, vl);
      var tail: seq<(Key, Value)> := [x];
      var none: seq<(Key, Value)> := [];
      GetAppend(Rebuilt(init, vi), tail, k);
      if last.1.Dict? {
        GetAppend(NewsPart(init, vi), tail, k);
        GetAppend(PlainPart(init, vi), none, k);
      } else {
        GetAppend(NewsPart(init, vi), none, k);
        GetAppend(PlainPart(init, vi), tail, k);
      }
      if Get(Rebuilt(init, vi), k).Some? {
        assert k in KeysOf(init) && k != last.0;
      }
    }
  }

  /** Merging the rebuilt mappings over the leaves reads like the rebuilt entries. */
  lemma OutReadsRebuilt(es: seq<(Key, Value)>, vals: seq<Value>)
    requires Linearizable(es) && |vals| == |Leaves(es)|
    ensures forall k :: Get(AssignAll(PlainPart(es, vals), AssignAll([], NewsPart(es, vals))), k) == Get(Rebuilt(es, vals), k)
  {
    var news := NewsPart(es, vals);
    NewsDistinct(es, vals);
    assert [] + news == news;
    AssignAllFresh([], news);
    forall k ensures Get(AssignAll(PlainPart(es, vals), AssignAll([], news)), k) == Get(Rebuilt(es, vals), k) {
      AssignAllOver(PlainPart(es, vals), news, k);
      RebuiltGet(es, vals, k);
    }
  }

  /** Entry by entry, the rebuilt values are the filled ones. */
  lemma {:induction false} FillRebuiltSame(es: seq<(Key, Value)>, vals: seq<Value>)
    requires |vals| == |Leaves(es)| && WfValues(vals) && SubsRoundTrip(es, vals)
    ensures forall i :: 0 <= i < |es| ==> Same(Fill(es, vals)[i].1, Rebuilt(es, vals)[i].1)
  {
    if es != [] {
      var init, last := es[..|es| - 1], es[|es| - 1];
      var n := |Leaves(init)|;
      var vi, vl := vals[..n], vals[n..];
      FillRebuiltSame(init, vi);
      var f, r := Fill(es, vals), Rebuilt(es, vals);
      assert f[|es| - 1] == FillEntry(last, vl) && r[|es| - 1] == RebuiltEntry(last, vl);
      if last.1.Dict? {
        assert EntryRoundTrip(last, vl);
        assert RebuiltEntry(last, vl).1 == Dict(Delinearized(LinDict(last.1.entries, vl)).value);
      } else {
        SameRefl(vl[0]);
      }
      forall i | 0 <= i < |es| ensures Same(f[i].1, r[i].1) {
        if i < |es| - 1 {
          assert f[i] == Fill(init, vi)[i] && r[i] == Rebuilt(init, vi)[i];
        }
      }
    }
  }

  /** Equal keys in the same order carry distinctness over. */
  lemma DistinctByKeys<V, W>(a: seq<(Key, V)>, b: seq<(Key, W)>)
    requires KeysOf(a) == KeysOf(b) && DistinctKeys(a)
    ensures DistinctKeys(b)
  {
    forall i, j | 0 <= i < j < |b| ensures b[i].0 != b[j].0 {
      assert KeysOf(a)[i] == KeysOf(b)[i] && KeysOf(a)[j] == KeysOf(b)[j];
    }
  }

  /** A dict that reads like `rebuilt`, whose values are the same as `filled`'s, equals `filled`. */
  lemma SameByGets(filled: seq<(Key, Value)>, rebuilt: seq<(Key, Value)>, out: seq<(Key, Value)>)
    requires KeysOf(filled) == KeysOf(rebuilt) && DistinctKeys(rebuilt)
    requires forall k :: Get(out, k) == Get(rebuilt, k)
    requires forall i :: 0 <= i < |filled| ==> Same(filled[i].1, rebuilt[i].1)
    ensures Same(Dict(filled), Dict(out))
  {
    forall k ensures k in KeysOf(filled) <==> k in KeysOf(out) {
      assert Get(out, k).Some? <==> Get(rebuilt, k).Some?;
    }
    forall i | 0 <= i < |filled|
      ensures Get(out, filled[i].0) == Some(rebuilt[i].1)
    {
      assert KeysOf(filled)[i] == KeysOf(rebuilt)[i];
      DistinctGet(rebuilt, i);
    }
  }

  /** `dict(zip(keys, values))` adds nothing to the linearized leaves: their keys are distinct, none is `()`. */
  lemma LinDictPlain(es: seq<(Key, Value)>, vals: seq<Value>)
    requires Linearizable(es) && |vals| == |Leaves(es)|
    ensures LinDict(es, vals) == Relabel(Leaves(es), vals)
    ensures !HasEmptyTuple(Relabel(Leaves(es), vals))
  {
    var d := Relabel(Leaves(es), vals);
    RelabelDistinct(es, vals);
    assert [] + d == d;
    AssignAllFresh([], d);
    RelabelHeads(es, vals);
  }

  /** Unfolding `delinearize` once, for a dict without an empty tuple key whose groups delinearize. */
  lemma DelinearizedUnfold(d: seq<(Key, Value)>, news: seq<(Key, Value)>)
    requires !HasEmptyTuple(d) && Headed(TupleEntries(d))
    requires GroupsBelow(GroupByHead(TupleEntries(d)), MaxKeySize(d))
    requires DelinearizeGroups(GroupByHead(TupleEntries(d)), MaxKeySize(d)) == Ok(news)
    ensures Delinearized(d) == Ok(AssignAll(PlainEntries(d), AssignAll([], news)))
  {
  }

  /** `delinearize` of the linearized leaves merges the rebuilt mappings over the top-level leaves. */
  lemma DelinearizedLin(es: seq<(Key, Value)>, vals: seq<Value>)
    requires Linearizable(es) && |vals| == |Leaves(es)| && SubsRoundTrip(es, vals)
    ensures Delinearized(LinDict(es, vals)) == Ok(AssignAll(PlainPart(es, vals), AssignAll([], NewsPart(es, vals))))
  {
    var d := Relabel(Leaves(es), vals);
    LinDictPlain(es, vals);
    TupleSplit(es, vals);
    PlainSplit(es, vals);
    GroupsOfBlocks(es, vals);
    HeadedUnlessEmptyTuple(d);
    GroupsOfDictBelow(d);
    NewsOfGroups(es, vals, MaxKeySize(d));
    DelinearizedUnfold(d, NewsPart(es, vals));
  }

  /**
   * `delinearize(dict(zip(keys, values)))`, with `keys` the keys `linearize` gives the leaves
   * of `es` and `values` one new value per leaf, succeeds and equals `es` with its leaves
   * replaced by `values`.
   */
  lemma {:induction false} RoundTrip(es: seq<(Key, Value)>, vals: seq<Value>)
    requires Linearizable(es) && |vals| == |Leaves(es)| && WfValues(vals)
    ensures Delinearized(LinDict(es, vals)).Ok?
    ensures Same(Dict(Fill(es, vals)), Dict(Delinearized(LinDict(es, vals)).value))
    decreases es, 1
  {
    SubsHold(es, vals);
    DelinearizedLin(es, vals);
    OutReadsRebuilt(es, vals);
    FillRebuiltSame(es, vals);
    DistinctByKeys(es, Rebuilt(es, vals));
    SameByGets(Fill(es, vals), Rebuilt(es, vals), Delinearized(LinDict(es, vals)).value);
  }

  lemma {:induction false} SubsHold(es: seq<(Key, Value)>, vals: seq<Value>)
    requires Linearizable(es) && |vals| == |Leaves(es)| && WfValues(vals)
    ensures SubsRoundTrip(es, vals)
    decreases es, 0
  {
    if es != [] {
      var init, last := es[..|es| - 1], es[|es| - 1];
      var n := |Leaves(init)|;
      LinearizableSplit(es);
      SubsHold(init, vals[..n]);
      EntryHolds(last, vals[n..]);
    }
  }

  lemma {:induction false} EntryHolds(e: (Key, Value), vs: seq<Value>)
    requires |vs| == |EntryLeaves(e)| && WfValues(vs)
    requires e.1.Dict? ==> Linearizable(e.1.entries)
    ensures EntryRoundTrip(e, vs)
    decreases e, 2
  {
    if e.1.Dict? {
      RoundTrip(e.1.entries, vs);
    }
  }

  /** The leaves of a well-formed configuration are well formed. */
  lemma {:induction false} LeavesWf(es: seq<(Key, Value)>)
    requires WfValue(Dict(es))
    ensures forall i :: 0 <= i < |Leaves(es)| ==> WfValue(Leaves(es)[i].1)
    decreases es, 0
  {
    if es != [] {
      var init, last := es[..|es| - 1], es[|es| - 1];
      assert WfValue(Dict(init)) by {
        assert forall i :: 0 <= i < |init| ==> init[i] == es[i];
      }
      LeavesWf(init);
      EntryLeavesWf(last);
      var a, b := Leaves(init), EntryLeaves(last);
      assert forall i :: 0 <= i < |a| ==> (a + b)[i] == a[i];
      assert forall i :: |a| <= i < |a + b| ==> (a + b)[i] == b[i - |a|];
    }
  }

  lemma {:induction false} EntryLeavesWf(e: (Key, Value))
    requires WfValue(e.1)
    ensures forall i :: 0 <= i < |EntryLeaves(e)| ==> WfValue(EntryLeaves(e)[i].1)
    decreases e, 1
  {
    if e.1.Dict? {
      LeavesWf(e.1.entries);
    }
  }

  /** Filling a configuration with its own leaf values gives it back. */
  lemma {:induction false} FillLeaves(es: seq<(Key, Value)>)
    ensures Fill(es, LeafValues(Leaves(es))) == es
    decreases es, 0
  {
    if es != [] {
      var init, last := es[..|es| - 1], es[|es| - 1];
      var vals := LeafValues(Leaves(es));
      var n := |Leaves(init)|;
      var a, b := Leaves(init), EntryLeaves(last);
      assert vals[..n] == LeafValues(a) && vals[n..] == LeafValues(b) by {
        assert forall i :: 0 <= i < |a| ==> (a + b)[i] == a[i];
        assert forall i :: |a| <= i < |a + b| ==> (a + b)[i] == b[i - |a|];
      }
      FillLeaves(init);
      FillEntryLeaves(last);
      assert es == init + [last];
    }
  }

  lemma {:induction false} FillEntryLeaves(e: (Key, Value))
    ensures FillEntry(e, LeafValues(EntryLeaves(e))) == e
    decreases e, 1
  {
    if e.1.Dict? {
      var below := Leaves(e.1.entries);
      assert LeafValues(EntryLeaves(e)) == LeafValues(below);
      FillLeaves(e.1.entries);
    } else {
      assert LeafValues(EntryLeaves(e)) == [e.1];
    }
  }

  /** The pairs `linearize` lists are the leaves relabelled with their own values. */
  lemma LinPairsRelabel(ls: seq<(seq<Key>, Value)>)
    requires Headed(ls)
    ensures LinPairs(ls) == Relabel(ls, LeafValues(ls))
  {
  }

  /**
   * `delinearize(dict(linearize(d)))` gives back `d`, for a configuration whose leaves are all
   * lists (so that `linearize` succeeds), whose keys are strings and whose nested mappings
   * are not empty.
   */
  lemma DelinearizeUndoesLinearize(es: seq<(Key, Value)>)
    requires Linearizable(es) && Linearized(es).Ok?
    ensures Delinearized(AssignAll([], Linearized(es).value)).Ok?
    ensures Same(Dict(es), Dict(Delinearized(AssignAll([], Linearized(es).value)).value))
  {
    var ls := Leaves(es);
    LinearizedLeaves(es);
    LinPairsRelabel(ls);
    LeavesWf(es);
    RoundTrip(es, LeafValues(ls));
    FillLeaves(es);
  }
}
