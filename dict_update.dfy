/**
 * `nested_dict_update(d, u)`: every entry of `u`, in order, is written into `d`; a mapping
 * value is merged recursively into `d.get(k, {})`, any other value overwrites `d[k]`.
 * The source updates `d` in place and returns it; here the updated value is returned, and a
 * raised exception is an `Err`.
 */
module DictUpdate {
  import opened Results
  import opened PyDict
  import opened Config

  /** The value `nested_dict_update(d, u)` returns, or the exception it raises. */
  function Updated(d: Value, u: seq<(Key, Value)>): Result<Value>
    decreases u, 0
  {
    if u == [] then Ok(d)
    else
      var prev :- Updated(d, u[..|u| - 1]);
      UpdateEntry(prev, u[|u| - 1])
  }

  /**
   * One iteration of the loop. On a target that is not a mapping, `d.get` raises
   * AttributeError and `d[k] = v` raises TypeError.
   */
  function UpdateEntry(d: Value, e: (Key, Value)): Result<Value>
    decreases e, 1
  {
    if e.1.Dict? then
      if !d.Dict? then Err(AttributeError)
      else
        var merged :- Updated(GetOr(d.entries, e.0, Dict([])), e.1.entries);
        Ok(Dict(Assign(d.entries, e.0, merged)))
    else if !d.Dict? then Err(TypeError)
    else Ok(Dict(Assign(d.entries, e.0, e.1)))
  }

  /** What `d[k]` becomes for the entry `(k, v)` of `u`: `v` itself, or `v` merged into `d.get(k, {})`. */
  function EntryValue(d: Value, e: (Key, Value)): Result<Value>
    requires d.Dict?
  {
    if e.1.Dict? then Updated(GetOr(d.entries, e.0, Dict([])), e.1.entries) else Ok(e.1)
  }

  /** Once an entry raises, the whole update raises the same exception. */
  lemma {:induction false} ErrorPersists(d: Value, u: seq<(Key, Value)>, j: nat)
    requires j <= |u| && Updated(d, u[..j]).Err?
    ensures Updated(d, u) == Updated(d, u[..j])
    decreases |u| - j
  {
    if j < |u| {
      var init := u[..|u| - 1];
      assert init[..j] == u[..j];
      ErrorPersists(d, init, j);
    } else {
      assert u[..j] == u;
    }
  }

  /** The loop of `nested_dict_update`, one entry of `u` at a time. */
  method NestedDictUpdate(d: Value, u: seq<(Key, Value)>) returns (r: Result<Value>)
    ensures r == Updated(d, u)
    decreases Dict(u)
  {
    var current := d;
    var i := 0;
    while i < |u|
      invariant 0 <= i <= |u|
      invariant Updated(d, u[..i]) == Ok(current)
    {
      var (k, v) := u[i];
      assert u[..i + 1][..i] == u[..i];
      assert u[..i + 1][i] == (k, v);
      if v.Dict? {
        if !current.Dict? {
          ErrorPersists(d, u, i + 1);
          return Err(AttributeError);
        }
        assert v == Dict(v.entries) && v == u[i].1;
        var merged := NestedDictUpdate(GetOr(current.entries, k, Dict([])), v.entries);
        if merged.Err? {
          ErrorPersists(d, u, i + 1);
          return Err(merged.error);
        }
        current := Dict(Assign(current.entries, k, merged.value));
      } else {
        if !current.Dict? {
          ErrorPersists(d, u, i + 1);
          return Err(TypeError);
        }
        current := Dict(Assign(current.entries, k, v));
      }
      i := i + 1;
    }
    assert u[..i] == u;
    return Ok(current);
  }

  /**
   * Updating a value that is not a mapping with a non-empty `u` raises: AttributeError when the
   * first value of `u` is a mapping, TypeError otherwise.
   */
  lemma UpdateNonMapping(d: Value, u: seq<(Key, Value)>)
    requires !d.Dict? && u != []
    ensures Updated(d, u) == Err(if u[0].1.Dict? then AttributeError else TypeError)
  {
    assert u[..1][..0] == [];
    ErrorPersists(d, u, 1);
  }

  /** Whether `r` holds, for every key of `u`, that entry's value and, for every other key, `d`'s. */
  ghost predicate HoldsEntries(r: Value, d: Value, u: seq<(Key, Value)>)
    requires d.Dict?
  {
    && r.Dict?
    && (forall i :: 0 <= i < |u| ==>
          EntryValue(d, u[i]).Ok? && Get(r.entries, u[i].0) == Some(EntryValue(d, u[i]).value))
    && (forall k :: k !in KeysOf(u) ==> Get(r.entries, k) == Get(d.entries, k))
  }

  /** A key that `u` has not touched yet reads the same in the partial result as in `d`. */
  lemma EntryStep(d: Value, prev: Value, last: (Key, Value))
    requires d.Dict? && prev.Dict?
    requires Get(prev.entries, last.0) == Get(d.entries, last.0)
    ensures UpdateEntry(prev, last).Ok? <==> EntryValue(d, last).Ok?
    ensures UpdateEntry(prev, last).Ok? ==>
      UpdateEntry(prev, last).value == Dict(Assign(prev.entries, last.0, EntryValue(d, last).value))
  {
    assert GetOr(prev.entries, last.0, Dict([])) == GetOr(d.entries, last.0, Dict([]));
  }

  lemma DistinctInit(u: seq<(Key, Value)>)
    requires DistinctKeys(u) && u != []
    ensures DistinctKeys(u[..|u| - 1])
    ensures u[|u| - 1].0 !in KeysOf(u[..|u| - 1])
  {
    var init := u[..|u| - 1];
    forall i, j | 0 <= i < j < |init| ensures init[i].0 != init[j].0 {
      assert init[i] == u[i] && init[j] == u[j];
    }
    forall i | 0 <= i < |init| ensures KeysOf(init)[i] != u[|u| - 1].0 {
      assert init[i] == u[i];
    }
  }

  /**
   * For a mapping `d` and a dict `u` (distinct keys), the update succeeds exactly when every
   * entry of `u` does; then each key of `u` holds its entry's value and every other key of `d`
   * keeps its value.
   */
  lemma {:induction false} UpdatedEntries(d: Value, u: seq<(Key, Value)>)
    requires d.Dict? && DistinctKeys(u)
    ensures Updated(d, u).Ok? <==> forall i :: 0 <= i < |u| ==> EntryValue(d, u[i]).Ok?
    ensures Updated(d, u).Ok? ==> HoldsEntries(Updated(d, u).value, d, u)
    decreases |u|
  {
    if u != [] {
      var init, last := u[..|u| - 1], u[|u| - 1];
      DistinctInit(u);
      UpdatedEntries(d, init);
      assert forall i :: 0 <= i < |init| ==> init[i] == u[i];
      if Updated(d, init).Ok? {
        var prev := Updated(d, init).value;
        EntryStep(d, prev, last);
        assert u == init + [last];
        if UpdateEntry(prev, last).Ok? {
          HoldsAfterEntry(d, prev, init, last);
        }
      } else {
        var i :| 0 <= i < |init| && !EntryValue(d, init[i]).Ok?;
      }
    }
  }

  lemma HoldsAfterEntry(d: Value, prev: Value, init: seq<(Key, Value)>, last: (Key, Value))
    requires d.Dict? && HoldsEntries(prev, d, init) && last.0 !in KeysOf(init)
    requires EntryValue(d, last).Ok?
    ensures HoldsEntries(Dict(Assign(prev.entries, last.0, EntryValue(d, last).value)), d, init + [last])
  {
    var u := init + [last];
    var r := Assign(prev.entries, last.0, EntryValue(d, last).value);
    forall i | 0 <= i < |u|
      ensures EntryValue(d, u[i]).Ok? && Get(r, u[i].0) == Some(EntryValue(d, u[i]).value)
    {
      if i < |init| {
        assert u[i] == init[i];
        assert KeysOf(init)[i] == u[i].0;
      }
    }
    KeysOfAppend(init, [last]);
    forall k | k !in KeysOf(u) ensures Get(r, k) == Get(d.entries, k) {
      assert KeysOf(u) == KeysOf(init) + [last.0];
    }
  }

  /** The keys after the update are the keys of `d` together with the keys of `u`. */
  lemma UpdatedKeys(d: Value, u: seq<(Key, Value)>)
    requires d.Dict? && DistinctKeys(u) && Updated(d, u).Ok?
    ensures Updated(d, u).value.Dict?
    ensures forall k :: k in KeysOf(Updated(d, u).value.entries) <==> k in KeysOf(d.entries) || k in KeysOf(u)
  {
    UpdatedEntries(d, u);
    var r := Updated(d, u).value;
    forall k ensures k in KeysOf(r.entries) <==> k in KeysOf(d.entries) || k in KeysOf(u) {
      if k in KeysOf(u) {
        var i :| 0 <= i < |u| && KeysOf(u)[i] == k;
        assert Get(r.entries, u[i].0).Some?;
      }
    }
  }

  /**
   * Updating twice with the same dict `u` gives what updating once gives: every assignment
   * overwrites, and writing a key's current value back changes nothing.
   */
  lemma {:induction false} UpdatedIdempotent(d: Value, u: seq<(Key, Value)>)
    requires WfValue(Dict(u)) && Updated(d, u).Ok?
    ensures Updated(Updated(d, u).value, u) == Updated(d, u)
    decreases Dict(u), 1
  {
    IdempotentPrefix(d, u, |u|);
    assert u[..|u|] == u;
  }

  lemma {:induction false} IdempotentPrefix(d: Value, u: seq<(Key, Value)>, j: nat)
    requires WfValue(Dict(u)) && Updated(d, u).Ok? && j <= |u|
    ensures Updated(Updated(d, u).value, u[..j]) == Updated(d, u)
    decreases Dict(u), 0, j
  {
    var r := Updated(d, u).value;
    if j > 0 {
      IdempotentPrefix(d, u, j - 1);
      assert u[..j][..j - 1] == u[..j - 1];
      var (k, v) := u[j - 1];
      if !d.Dict? {
        UpdateNonMapping(d, u);
      }
      UpdatedEntries(d, u);
      assert HoldsEntries(r, d, u);
      assert Get(r.entries, k) == Some(EntryValue(d, u[j - 1]).value);
      if v.Dict? {
        var target := GetOr(d.entries, k, Dict([]));
        assert WfValue(v) && v == Dict(v.entries);
        UpdatedIdempotent(target, v.entries);
        assert GetOr(r.entries, k, Dict([])) == Updated(target, v.entries).value;
      }
      AssignSame(r.entries, k, EntryValue(d, u[j - 1]).value);
    } else {
      assert u[..0] == [];
    }
  }
}
