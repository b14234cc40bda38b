/**
 * `mlflow_linearize`: flattening a nested configuration into one level whose keys are the
 * paths to the leaves joined with '.', as experiment-tracking parameters.
 */
module MlflowParams {
  import opened Results
  import opened PyDict
  import opened Config

  /** Whether every key is a string. */
  predicate NamedKeys(es: seq<(Key, Value)>)
  {
    forall i :: 0 <= i < |es| ==> es[i].0.Name?
  }

  /** `{key + '.' + lin_key: lin_value for …}` over entries whose keys are all strings. */
  function Rename(key: Key, es: seq<(Key, Value)>): seq<(Key, Value)>
    requires key.Name? && NamedKeys(es)
  {
    seq(|es|, i requires 0 <= i < |es| => (Name(key.name + "." + es[i].0.name), es[i].1))
  }

  /**
   * The dict comprehension prefixing the keys of a sub-result with `key`. Nothing is
   * concatenated when the sub-result is empty; otherwise `+` raises TypeError unless `key` and
   * every key of the sub-result are strings.
   */
  function Prefixed(key: Key, inner: seq<(Key, Value)>): Result<seq<(Key, Value)>>
  {
    if inner == [] then Ok([])
    else if key.Name? && NamedKeys(inner) then Ok(AssignAll([], Rename(key, inner)))
    else Err(TypeError)
  }

  /** The dict `mlflow_linearize(dictionary)` returns. */
  function MlflowLinearized(es: seq<(Key, Value)>): Result<seq<(Key, Value)>>
    decreases es, 0
  {
    if es == [] then Ok([])
    else
      var exps :- MlflowLinearized(es[..|es| - 1]);
      MlflowStep(exps, es[|es| - 1])
  }

  /** One iteration of the loop: merge the prefixed sub-result of a mapping, or set the value. */
  function MlflowStep(exps: seq<(Key, Value)>, e: (Key, Value)): Result<seq<(Key, Value)>>
    decreases e, 1
  {
    if e.1.Dict? then
      var inner :- MlflowLinearized(e.1.entries);
      var prefixed :- Prefixed(e.0, inner);
      Ok(AssignAll(exps, prefixed))
    else Ok(Assign(exps, e.0, e.1))
  }

  lemma {:induction false} MlflowErrorPersists(es: seq<(Key, Value)>, j: nat)
    requires j <= |es| && MlflowLinearized(es[..j]).Err?
    ensures MlflowLinearized(es) == MlflowLinearized(es[..j])
    decreases |es| - j
  {
    if j < |es| {
      var init := es[..|es| - 1];
      assert init[..j] == es[..j];
      MlflowErrorPersists(init, j);
    } else {
      assert es[..j] == es;
    }
  }

  /** The loop of `mlflow_linearize`, which reassigns `exps` on every key. */
  method MlflowLinearize(es: seq<(Key, Value)>) returns (r: Result<seq<(Key, Value)>>)
    ensures r == MlflowLinearized(es)
    decreases Dict(es)
  {
    var exps := [];
    var i := 0;
    while i < |es|
      invariant 0 <= i <= |es|
      invariant MlflowLinearized(es[..i]) == Ok(exps)
    {
      var (key, value) := es[i];
      assert es[..i + 1][..i] == es[..i];
      assert es[..i + 1][i] == es[i];
      if value.Dict? {
        assert value == Dict(value.entries) && value == es[i].1;
        var inner := MlflowLinearize(value.entries);
        if inner.Err? {
          MlflowErrorPersists(es, i + 1);
          return Err(inner.error);
        }
        var prefixed := Prefixed(key, inner.value);
        if prefixed.Err? {
          MlflowErrorPersists(es, i + 1);
          return Err(prefixed.error);
        }
        exps := AssignAll(exps, prefixed.value);
      } else {
        exps := Assign(exps, key, value);
      }
      i := i + 1;
    }
    assert es[..i] == es;
    return Ok(exps);
  }

  /** Whether every path of two or more keys is made of strings, so that it can be joined. */
  ghost predicate Joinable(ls: seq<(seq<Key>, Value)>)
  {
    forall i :: 0 <= i < |ls| ==>
      |ls[i].0| >= 1 && (|ls[i].0| == 1 || forall j :: 0 <= j < |ls[i].0| ==> ls[i].0[j].Name?)
  }

  /** The strings of a path joined with '.'. */
  function JoinNames(path: seq<Key>): string
    requires |path| >= 1 && forall j :: 0 <= j < |path| ==> path[j].Name?
  {
    if |path| == 1 then path[0].name else path[0].name + "." + JoinNames(path[1..])
  }

  /** The parameter key of a leaf: its own key at the top level, else its joined path. */
  function DotKey(path: seq<Key>): Key
    requires |path| >= 1 && (|path| == 1 || forall j :: 0 <= j < |path| ==> path[j].Name?)
  {
    if |path| == 1 then path[0] else Name(JoinNames(path))
  }

  /** Each leaf under its parameter key, in depth-first order. */
  function DottedLeaves(ls: seq<(seq<Key>, Value)>): seq<(Key, Value)>
    requires Joinable(ls)
  {
    seq(|ls|, i requires 0 <= i < |ls| => (DotKey(ls[i].0), ls[i].1))
  }

  /** Prefixing renamed keys: the key `key.s` reads what `s` read. */
  lemma {:induction false} RenameGetDotted(key: Key, es: seq<(Key, Value)>, s: string)
    requires key.Name? && NamedKeys(es)
    ensures Get(AssignAll([], Rename(key, es)), Name(key.name + "." + s)) == Get(AssignAll([], es), Name(s))
  {
    if es != [] {
      var init := es[..|es| - 1];
      assert Rename(key, es)[..|es| - 1] == Rename(key, init);
      RenameGetDotted(key, init, s);
      var last := es[|es| - 1].0.name;
      if key.name + "." + last == key.name + "." + s {
        assert last == (key.name + "." + last)[|key.name| + 1..] == (key.name + "." + s)[|key.name| + 1..] == s;
      }
    }
  }

  /** Prefixing renamed keys: a key not of the form `key.s` reads nothing. */
  lemma {:induction false} RenameGetOther(key: Key, es: seq<(Key, Value)>, k: Key)
    requires key.Name? && NamedKeys(es)
    requires forall s :: k != Name(key.name + "." + s)
    ensures Get(AssignAll([], Rename(key, es)), k) == None
  {
    if es != [] {
      assert Rename(key, es)[..|es| - 1] == Rename(key, es[..|es| - 1]);
      RenameGetOther(key, es[..|es| - 1], k);
    }
  }

  /** Whether every key of every path is a string. */
  ghost predicate AllNamed(ls: seq<(seq<Key>, Value)>)
  {
    forall i, j :: 0 <= i < |ls| && 0 <= j < |ls[i].0| ==> ls[i].0[j].Name?
  }

  lemma JoinableAppend(a: seq<(seq<Key>, Value)>, b: seq<(seq<Key>, Value)>)
    ensures Joinable(a + b) <==> Joinable(a) && Joinable(b)
    ensures Joinable(a + b) ==> DottedLeaves(a + b) == DottedLeaves(a) + DottedLeaves(b)
  {
    assert forall i :: 0 <= i < |a| ==> (a + b)[i] == a[i];
    assert forall i :: 0 <= i < |b| ==> (a + b)[|a| + i] == b[i];
  }

  /** The leaves below a mapping entry are those of the sub-dict, each path prefixed with the key. */
  lemma EntryLeavesBelow(key: Key, sub: seq<(Key, Value)>)
    ensures |EntryLeaves((key, Dict(sub)))| == |Leaves(sub)|
    ensures forall i :: 0 <= i < |Leaves(sub)| ==>
      EntryLeaves((key, Dict(sub)))[i] == ([key] + Leaves(sub)[i].0, Leaves(sub)[i].1)
  {
  }

  /** Joinable leaves below a mapping entry, if any, have a string key and string paths. */
  lemma EntryJoinableNamed(key: Key, sub: seq<(Key, Value)>)
    requires Joinable(EntryLeaves((key, Dict(sub)))) && Leaves(sub) != []
    ensures key.Name? && AllNamed(Leaves(sub))
  {
    var below := Leaves(sub);
    var ls := EntryLeaves((key, Dict(sub)));
    EntryLeavesBelow(key, sub);
    assert ls[0].0[0] == key;
    forall i, j | 0 <= i < |below| && 0 <= j < |below[i].0| ensures below[i].0[j].Name? {
      assert ls[i].0[j + 1] == below[i].0[j];
    }
  }

  /** With a string key and string paths below, the leaves join to the renamed keys below. */
  lemma EntryNamedJoinable(key: Key, sub: seq<(Key, Value)>)
    requires key.Name? && AllNamed(Leaves(sub))
    ensures Joinable(EntryLeaves((key, Dict(sub)))) && Joinable(Leaves(sub))
    ensures NamedKeys(DottedLeaves(Leaves(sub)))
    ensures DottedLeaves(EntryLeaves((key, Dict(sub)))) == Rename(key, DottedLeaves(Leaves(sub)))
  {
    var below := Leaves(sub);
    var ls := EntryLeaves((key, Dict(sub)));
    EntryLeavesBelow(key, sub);
    forall i | 0 <= i < |ls| ensures |ls[i].0| >= 1 && forall j :: 0 <= j < |ls[i].0| ==> ls[i].0[j].Name? {
      assert forall j :: 1 <= j < |ls[i].0| ==> ls[i].0[j] == below[i].0[j - 1];
    }
    forall i | 0 <= i < |ls| ensures DotKey(ls[i].0) == Name(key.name + "." + DotKey(below[i].0).name) {
      assert ls[i].0[1..] == below[i].0;
    }
  }

  /**
   * The leaves below a mapping entry `(key, sub)` can be joined exactly when there are none,
   * or `key` and every path below are strings; their parameter keys are then those below,
   * prefixed with `key`.
   */
  lemma EntryJoinable(key: Key, sub: seq<(Key, Value)>)
    ensures Joinable(EntryLeaves((key, Dict(sub)))) <==> Leaves(sub) == [] || (key.Name? && AllNamed(Leaves(sub)))
    ensures key.Name? && AllNamed(Leaves(sub)) ==>
      Joinable(Leaves(sub)) && NamedKeys(DottedLeaves(Leaves(sub))) &&
      DottedLeaves(EntryLeaves((key, Dict(sub)))) == Rename(key, DottedLeaves(Leaves(sub)))
  {
    EntryLeavesBelow(key, sub);
    if Joinable(EntryLeaves((key, Dict(sub)))) && Leaves(sub) != [] {
      EntryJoinableNamed(key, sub);
    }
    if key.Name? && AllNamed(Leaves(sub)) {
      EntryNamedJoinable(key, sub);
    }
  }

  /** The result of `mlflow_linearize` has distinct keys, like every dict. */
  lemma {:induction false} MlflowDistinct(es: seq<(Key, Value)>)
    ensures MlflowLinearized(es).Ok? ==> DistinctKeys(MlflowLinearized(es).value)
    decreases es, 0
  {
    if es != [] {
      MlflowDistinct(es[..|es| - 1]);
      var r := MlflowLinearized(es[..|es| - 1]);
      if r.Ok? {
        MlflowStepDistinct(r.value, es[|es| - 1]);
      }
    }
  }

  lemma {:induction false} MlflowStepDistinct(exps: seq<(Key, Value)>, e: (Key, Value))
    requires DistinctKeys(exps)
    ensures MlflowStep(exps, e).Ok? ==> DistinctKeys(MlflowStep(exps, e).value)
    decreases e, 1
  {
    if e.1.Dict? {
      var inner := MlflowLinearized(e.1.entries);
      if inner.Ok? {
        var p := Prefixed(e.0, inner.value);
        if p.Ok? {
          if inner.value != [] {
            assert DistinctKeys<Key, Value>([]);
            AssignAllDistinct([], Rename(e.0, inner.value));
          }
          AssignAllDistinct(exps, p.value);
        }
      }
    } else {
      AssignDistinct(exps, e.0, e.1);
    }
  }

  /** A dict with distinct keys is its own `dict(...)`. */
  lemma DistinctAssignAll(d: seq<(Key, Value)>)
    requires DistinctKeys(d)
    ensures AssignAll([], d) == d
  {
    assert [] + d == d;
    AssignAllFresh([], d);
  }

  /**
   * A sub-result that reads like `dict` of the dotted leaves below is empty exactly when there
   * are no leaves, and has only string keys exactly when every leaf's key is a string.
   */
  lemma InnerShape(inner: seq<(Key, Value)>, below: seq<(seq<Key>, Value)>)
    requires Joinable(below)
    requires forall k :: Get(inner, k) == Get(AssignAll([], DottedLeaves(below)), k)
    ensures inner == [] <==> below == []
    ensures NamedKeys(inner) <==> NamedKeys(DottedLeaves(below))
  {
    var dl := DottedLeaves(below);
    AssignAllKeys([], dl);
    assert KeysOf<Key, Value>([]) == [];
    forall k ensures k in KeysOf(inner) <==> k in KeysOf(dl) {
      assert Get(inner, k).Some? <==> k in KeysOf(inner);
      assert Get(AssignAll([], dl), k).Some? <==> k in KeysOf(AssignAll([], dl));
    }
    if inner != [] {
      assert KeysOf(inner)[0] == inner[0].0;
      assert inner[0].0 in KeysOf(dl);
    }
    if below != [] {
      assert KeysOf(dl)[0] == dl[0].0;
      assert dl[0].0 in KeysOf(inner);
    }
    if NamedKeys(inner) {
      forall i | 0 <= i < |dl| ensures dl[i].0.Name? {
        assert KeysOf(dl)[i] == dl[i].0;
        assert dl[i].0 in KeysOf(inner);
        var j :| 0 <= j < |inner| && KeysOf(inner)[j] == dl[i].0;
      }
    }
    if NamedKeys(dl) {
      forall i | 0 <= i < |inner| ensures inner[i].0.Name? {
        assert KeysOf(inner)[i] == inner[i].0;
        assert inner[i].0 in KeysOf(dl);
        var j :| 0 <= j < |dl| && KeysOf(dl)[j] == inner[i].0;
      }
    }
  }

  /** Under joinable paths, the parameter keys are all strings exactly when every path is. */
  lemma NamedDotKeys(ls: seq<(seq<Key>, Value)>)
    requires Joinable(ls)
    ensures NamedKeys(DottedLeaves(ls)) <==> AllNamed(ls)
  {
    if NamedKeys(DottedLeaves(ls)) {
      forall i, j | 0 <= i < |ls| && 0 <= j < |ls[i].0| ensures ls[i].0[j].Name? {
        assert DottedLeaves(ls)[i].0.Name?;
      }
    }
  }

  /** A key either starts with `key.` or is none of the keys `key.s`. */
  lemma DottedOrNot(key: Key, k: Key) returns (s: string)
    requires key.Name?
    ensures k == Name(key.name + "." + s) || forall s' :: k != Name(key.name + "." + s')
  {
    s := "";
    var n := |key.name| + 1;
    if k.Name? && |k.name| >= n && k.name[..n] == key.name + "." {
      s := k.name[n..];
      assert k.name == k.name[..n] + k.name[n..];
    } else {
      forall s' ensures k != Name(key.name + "." + s') {
        assert (key.name + "." + s')[..n] == key.name + ".";
      }
    }
  }

  /**
   * Merging the prefixed sub-result reads like merging the prefixed dotted leaves, when the
   * sub-result reads like `dict` of the dotted leaves below.
   */
  lemma MergePrefixed(exps: seq<(Key, Value)>, x: seq<(Key, Value)>, key: Key,
                      inner: seq<(Key, Value)>, below: seq<(seq<Key>, Value)>)
    requires forall k :: Get(exps, k) == Get(x, k)
    requires Joinable(below) && key.Name? && NamedKeys(inner) && NamedKeys(DottedLeaves(below)) && DistinctKeys(inner)
    requires forall k :: Get(inner, k) == Get(AssignAll([], DottedLeaves(below)), k)
    ensures forall k :: Get(AssignAll(exps, AssignAll([], Rename(key, inner))), k) ==
                        Get(AssignAll(x, Rename(key, DottedLeaves(below))), k)
  {
    var p := AssignAll([], Rename(key, inner));
    var dl := DottedLeaves(below);
    var q := Rename(key, dl);
    assert DistinctKeys<Key, Value>([]);
    AssignAllDistinct([], Rename(key, inner));
    DistinctAssignAll(p);
    DistinctAssignAll(inner);
    forall k ensures Get(AssignAll(exps, p), k) == Get(AssignAll(x, q), k) {
      AssignAllOver(exps, p, k);
      AssignAllOver(x, q, k);
      var s := DottedOrNot(key, k);
      if k == Name(key.name + "." + s) {
        RenameGetDotted(key, inner, s);
        RenameGetDotted(key, dl, s);
      } else {
        RenameGetOther(key, inner, k);
        RenameGetOther(key, dl, k);
      }
    }
  }

  /**
   * `mlflow_linearize` raises TypeError exactly when a path of two or more keys holds a key
   * that is not a string; otherwise, as a dict, it maps each leaf's joined path to the leaf
   * (a later leaf with the same joined path overwrites an earlier one), and an empty mapping
   * contributes no key.
   */
  lemma {:induction false} MlflowLeaves(es: seq<(Key, Value)>)
    ensures MlflowLinearized(es).Ok? <==> Joinable(Leaves(es))
    ensures MlflowLinearized(es).Err? ==> MlflowLinearized(es).error == TypeError
    ensures MlflowLinearized(es).Ok? ==>
      forall k :: Get(MlflowLinearized(es).value, k) == Get(AssignAll([], DottedLeaves(Leaves(es))), k)
    decreases es, 0
  {
    if es != [] {
      var init, last := es[..|es| - 1], es[|es| - 1];
      MlflowLeaves(init);
      var a, b := Leaves(init), EntryLeaves(last);
      JoinableAppend(a, b);
      var r := MlflowLinearized(init);
      if r.Ok? {
        MlflowStepLeaves(r.value, AssignAll([], DottedLeaves(a)), last);
        if Joinable(a + b) {
          AssignAllConcat([], DottedLeaves(a), DottedLeaves(b));
        }
      }
    }
  }

  lemma {:induction false} MlflowStepLeaves(exps: seq<(Key, Value)>, x: seq<(Key, Value)>, e: (Key, Value))
    requires forall k :: Get(exps, k) == Get(x, k)
    ensures MlflowStep(exps, e).Ok? <==> Joinable(EntryLeaves(e))
    ensures MlflowStep(exps, e).Err? ==> MlflowStep(exps, e).error == TypeError
    ensures MlflowStep(exps, e).Ok? ==>
      forall k :: Get(MlflowStep(exps, e).value, k) == Get(AssignAll(x, DottedLeaves(EntryLeaves(e))), k)
    decreases e, 1
  {
    if e.1.Dict? {
      var key, sub := e.0, e.1.entries;
      assert e == (key, Dict(sub));
      MlflowLeaves(sub);
      MlflowDistinct(sub);
      EntryJoinable(key, sub);
      var below := Leaves(sub);
      var r := MlflowLinearized(sub);
      if r.Ok? {
        var inner := r.value;
        InnerShape(inner, below);
        NamedDotKeys(below);
        if below == [] {
          assert DottedLeaves(EntryLeaves(e)) == [];
        } else if key.Name? && AllNamed(below) {
          MergePrefixed(exps, x, key, inner, below);
        }
      }
    } else {
      var ls := EntryLeaves(e);
      assert ls == [([e.0], e.1)];
      assert DottedLeaves(ls) == [(e.0, e.1)];
      assert [(e.0, e.1)][..0] == [];
    }
  }
}
