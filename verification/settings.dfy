/**
 The settings algebra of Common.ts (module Settings): deep equality,
 `diff` (the minimal override that reproduces a value from its default),
 `coalesce` (a default completed by an override) and the `Setting` class
 that persists only the difference from the default.

 The central law, stated in the doc comments of `Setting`, is that
 coalescing a default with the difference between that default and a value
 gives the value back (`CoalesceDiffRoundTrip`).
 */
module Settings {
  import opened Wrappers
  import opened JsonValue
  import opened FontSettings

  // ---------------------------------------------------------------------
  // equal
  // ---------------------------------------------------------------------

  /**
   `equal(value1, value2)`: values of different `typeof` differ; primitives
   and `null` compare with `===`; two objects are equal when they have the
   same number of keys and every key of the first holds a value equal to the
   second's value under that key (possibly `undefined`).
   */
  function Equal(a: Value, b: Value): bool
    decreases a
  {
    if TypeOf(a) != TypeOf(b) then false
    else if !a.Obj? || !b.Obj? then a == b
    else |a.fields| == |b.fields| && forall k | k in a.fields :: Equal(a.fields[k], Get(b, k))
  }

  /** Every value is equal to itself. */
  lemma {:induction false} EqualReflexive(a: Value)
    ensures Equal(a, a)
    decreases a
  {
    if a.Obj? {
      forall k | k in a.fields ensures Equal(a.fields[k], Get(a, k)) {
        EqualReflexive(a.fields[k]);
      }
    }
  }

  /** Two keys sets of the same size, one inside the other, are the same. */
  lemma SubsetOfSameSize(s: set<string>, t: set<string>)
    requires s <= t && |s| == |t|
    ensures s == t
  {
    assert |t - s| == |t| - |s| == 0;
    assert t - s == {};
  }

  /** On values JSON can express, `equal` is exactly structural equality. */
  lemma {:induction false} EqualIsStructural(a: Value, b: Value)
    requires IsJson(a) && IsJson(b)
    ensures Equal(a, b) <==> a == b
    decreases a
  {
    EqualReflexive(a);
    if Equal(a, b) && a.Obj? && b.Obj? {
      forall k | k in a.fields ensures k in b.fields && a.fields[k] == b.fields[k] {
        assert Equal(a.fields[k], Get(b, k));
        EqualIsStructural(a.fields[k], Get(b, k));
      }
      SubsetOfSameSize(a.fields.Keys, b.fields.Keys);
      assert a.fields == b.fields;
    }
  }

  /** On values JSON can express, `equal` is symmetric. */
  lemma EqualSymmetric(a: Value, b: Value)
    requires IsJson(a) && IsJson(b)
    ensures Equal(a, b) <==> Equal(b, a)
  {
    EqualIsStructural(a, b);
    EqualIsStructural(b, a);
  }

  /**
   Without the JSON restriction `equal` is not symmetric: only the first
   argument's keys are visited, so a key holding `undefined` in the second
   object is never compared with anything.
   */
  lemma EqualAsymmetricWithUndefinedKeys()
    ensures var a := Obj(map["x" := Num(1)]);
            var b := Obj(map["y" := Undefined]);
            Equal(b, a) && !Equal(a, b)
  {
    var a := Obj(map["x" := Num(1)]);
    var b := Obj(map["y" := Undefined]);
    assert Get(a, "y") == Undefined;
    assert Get(b, "x") == Undefined;
    assert !Equal(Num(1), Undefined);
  }

  /** An object none of whose keys holds `undefined`. */
  ghost predicate NoUndefinedFields(v: Value) {
    v.Obj? && forall k | k in v.fields :: v.fields[k] != Undefined
  }

  /** Two such objects that agree on every property read are the same object. */
  lemma ObjectsEqualByGet(a: Value, b: Value)
    requires NoUndefinedFields(a) && NoUndefinedFields(b)
    requires forall k :: Get(a, k) == Get(b, k)
    ensures a == b
  {
    forall k | k in a.fields ensures k in b.fields && a.fields[k] == b.fields[k] {
      assert Get(a, k) == a.fields[k];
    }
    forall k | k in b.fields ensures k in a.fields {
      assert Get(b, k) == b.fields[k];
    }
    assert a.fields == b.fields;
  }

  /** Property reads of a JSON value are JSON values. */
  lemma GetJson(v: Value, k: string)
    requires IsJson(v)
    ensures IsJson(Get(v, k))
  {
  }

  // ---------------------------------------------------------------------
  // diff
  // ---------------------------------------------------------------------

  /**
   `diff(defaultValue, changedValue)`. Under an object default, the keys of
   the value whose sub-values are not `equal` to the default's are kept, each
   reduced recursively, and `undefined` comes back when none is kept.
   Reading a property of a `null` default throws.
   */
  function Diff(d: Value, v: Value): Outcome<Value>
    decreases v
  {
    if v.Undefined? then Ok(Undefined)
    else if d.Undefined? then Ok(v)
    else if TypeOf(d) != TObject then Ok(if v == d then Undefined else v)
    else if d.Null? then (if Keys(v) == {} then Ok(Undefined) else Thrown)
    else
      var changedKeys := set k | k in Keys(v) && !Equal(Get(d, k), v.fields[k]);
      if exists k | k in changedKeys :: Diff(Get(d, k), v.fields[k]).Thrown? then Thrown
      else
        var changed := map k | k in changedKeys && Diff(Get(d, k), v.fields[k]).value != Undefined
                             :: Diff(Get(d, k), v.fields[k]).value;
        Ok(if |changed| > 0 then Obj(changed) else Undefined)
  }

  /** One unfolding of `diff` under an object default, stated key by key. */
  lemma DiffOnObject(d: Value, v: Value)
    requires d.Obj? && v != Undefined
    ensures Diff(d, v).Thrown? <==>
      exists k | k in Keys(v) :: !Equal(Get(d, k), Get(v, k)) && Diff(Get(d, k), Get(v, k)).Thrown?
    ensures Diff(d, v).Ok? ==>
      var r := Diff(d, v).value;
      && (r == Undefined || (NoUndefinedFields(r) && r.fields != map[]))
      && (forall k :: Get(r, k) ==
           if k in Keys(v) && !Equal(Get(d, k), Get(v, k)) then Diff(Get(d, k), Get(v, k)).value else Undefined)
      && (r == Undefined <==>
           forall k | k in Keys(v) && !Equal(Get(d, k), Get(v, k)) :: Diff(Get(d, k), Get(v, k)).value == Undefined)
  {
    assert forall k | k in Keys(v) :: Get(v, k) == v.fields[k];
    if Diff(d, v).Ok? {
      DiffOnObjectValue(d, v);
    }
  }

  /** The value of `diff` under an object default, when it does not throw. */
  lemma DiffOnObjectValue(d: Value, v: Value)
    requires d.Obj? && v != Undefined && Diff(d, v).Ok?
    ensures forall k | k in Keys(v) && !Equal(Get(d, k), v.fields[k]) :: Diff(Get(d, k), v.fields[k]).Ok?
    ensures var r := Diff(d, v).value;
      && (r == Undefined || (NoUndefinedFields(r) && r.fields != map[]))
      && (forall k :: Get(r, k) ==
           if k in Keys(v) && !Equal(Get(d, k), v.fields[k]) then Diff(Get(d, k), v.fields[k]).value else Undefined)
      && (r == Undefined <==>
           forall k | k in Keys(v) && !Equal(Get(d, k), v.fields[k]) :: Diff(Get(d, k), v.fields[k]).value == Undefined)
  {
    var changedKeys := set k | k in Keys(v) && !Equal(Get(d, k), v.fields[k]);
    var changed := map k | k in changedKeys && Diff(Get(d, k), v.fields[k]).value != Undefined
                         :: Diff(Get(d, k), v.fields[k]).value;
    var r := Diff(d, v).value;
    assert r == if |changed| > 0 then Obj(changed) else Undefined;
    forall k ensures Get(r, k) ==
      if k in Keys(v) && !Equal(Get(d, k), v.fields[k]) then Diff(Get(d, k), v.fields[k]).value else Undefined
    {
      if k in changed {
        assert |changed| > 0;
      }
    }
    if forall k | k in changedKeys :: Diff(Get(d, k), v.fields[k]).value == Undefined {
      assert changed.Keys == {};
    } else {
      var k :| k in changedKeys && Diff(Get(d, k), v.fields[k]).value != Undefined;
      assert k in changed;
    }
  }

  /**
   Under an object default, `diff` keeps exactly the keys of the value whose
   sub-values differ from the default's, each reduced recursively, and is
   `undefined` when no key survives.
   */
  lemma DiffObject(d: Value, v: Value)
    requires d.Obj? && IsJson(d) && IsJson(v) && v != Undefined
    requires Diff(d, v).Ok?
    ensures forall k | k in Keys(v) && Get(d, k) != Get(v, k) :: Diff(Get(d, k), Get(v, k)).Ok?
    ensures var r := Diff(d, v).value;
      && (r == Undefined || (NoUndefinedFields(r) && r.fields != map[]))
      && forall k :: Get(r, k) ==
           if k in Keys(v) && Get(d, k) != Get(v, k) then Diff(Get(d, k), Get(v, k)).value else Undefined
  {
    DiffOnObject(d, v);
    forall k ensures Equal(Get(d, k), Get(v, k)) <==> Get(d, k) == Get(v, k) {
      GetJson(d, k);
      GetJson(v, k);
      EqualIsStructural(Get(d, k), Get(v, k));
    }
  }

  /** The difference between two JSON values is a JSON value. */
  lemma {:induction false} DiffIsJson(d: Value, v: Value)
    requires IsJson(d) && IsJson(v) && Diff(d, v).Ok?
    ensures IsJson(Diff(d, v).value)
    decreases v
  {
    if v != Undefined && d.Obj? {
      DiffOnObject(d, v);
      var r := Diff(d, v).value;
      if r != Undefined {
        forall k | k in r.fields ensures IsJson(r.fields[k]) {
          assert Get(r, k) == r.fields[k];
          GetJson(d, k);
          DiffIsJson(Get(d, k), v.fields[k]);
        }
      }
    }
  }

  /**
   `v` is "equal to (or contained in)" the default `d`, the condition under
   which `diff` reports no change: every key of `v` either matches the
   default's value or is itself contained in it.
   */
  ghost predicate ContainedIn(v: Value, d: Value)
    decreases v
  {
    if v.Undefined? then true
    else if d.Undefined? then false
    else if TypeOf(d) != TObject then v == d
    else if d.Null? then Keys(v) == {}
    else forall k | k in Keys(v) :: Get(d, k) == v.fields[k] || ContainedIn(v.fields[k], Get(d, k))
  }

  /** `diff` reports "no change" exactly for values contained in the default. */
  lemma {:induction false} DiffUndefinedIffContained(d: Value, v: Value)
    requires IsJson(d) && IsJson(v)
    ensures Diff(d, v) == Ok(Undefined) <==> ContainedIn(v, d)
    decreases v
  {
    if v != Undefined && d.Obj? {
      forall k | k in Keys(v)
        ensures Equal(Get(d, k), Get(v, k)) <==> Get(d, k) == Get(v, k)
        ensures Diff(Get(d, k), v.fields[k]) == Ok(Undefined) <==> ContainedIn(v.fields[k], Get(d, k))
      {
        GetJson(d, k);
        EqualIsStructural(Get(d, k), v.fields[k]);
        DiffUndefinedIffContained(Get(d, k), v.fields[k]);
      }
      DiffOnObject(d, v);
      forall k | k in Keys(v) ensures Get(v, k) == v.fields[k] {
      }
    }
  }

  // ---------------------------------------------------------------------
  // coalesce
  // ---------------------------------------------------------------------

  /**
   `coalesce(defaultValue, changedValue)`: the default when there is no
   override, the override when there is no default or the default is a
   primitive, and otherwise the key-wise union of the two objects with each
   key coalesced recursively and `undefined` results dropped. Reading a
   property of a `null` operand throws.
   */
  function Coalesce(d: Value, o: Value): Outcome<Value>
    decreases d, 1
  {
    if o.Undefined? then Ok(d)
    else if d.Undefined? then Ok(o)
    else if TypeOf(d) != TObject then Ok(o)
    else
      var keys := Keys(d) + Keys(o);
      if keys == {} then Ok(Obj(map[]))
      else if d.Null? || o.Null? then Thrown
      else if exists k | k in keys :: CoalesceKey(d, o, k).Thrown? then Thrown
      else Ok(Obj(map k | k in keys && CoalesceKey(d, o, k).value != Undefined :: CoalesceKey(d, o, k).value))
  }

  /**
   `coalesce(defaultValue[key], changedValue[key])` for an object default.
   For a key the default lacks this is `coalesce(undefined, o[key])`, which
   is `o[key]` (`CoalesceFromUndefined`).
   */
  function CoalesceKey(d: Value, o: Value, k: string): Outcome<Value>
    requires d.Obj?
    decreases d, 0
  {
    if k in d.fields then Coalesce(d.fields[k], Get(o, k)) else Ok(Get(o, k))
  }

  /** Without a default, `coalesce` returns the override, as `CoalesceKey` assumes. */
  lemma CoalesceFromUndefined(o: Value)
    ensures Coalesce(Undefined, o) == Ok(o)
  {
  }

  /** One unfolding of `coalesce` of two objects, stated key by key. */
  lemma CoalesceOnObjects(d: Value, o: Value)
    requires d.Obj? && o.Obj?
    ensures Coalesce(d, o).Thrown? <==> exists k | k in d.fields :: Coalesce(d.fields[k], Get(o, k)).Thrown?
    ensures Coalesce(d, o).Ok? ==>
      var r := Coalesce(d, o).value;
      && NoUndefinedFields(r)
      && forall k :: Get(r, k) == if k in d.fields then Coalesce(d.fields[k], Get(o, k)).value else Get(o, k)
  {
    var keys := Keys(d) + Keys(o);
    if keys != {} && Coalesce(d, o).Ok? {
      var r := Coalesce(d, o).value;
      assert r == Obj(map k | k in keys && CoalesceKey(d, o, k).value != Undefined :: CoalesceKey(d, o, k).value);
      forall k ensures Get(r, k) == if k in d.fields then Coalesce(d.fields[k], Get(o, k)).value else Get(o, k) {
        if k in keys {
          assert CoalesceKey(d, o, k).Ok?;
        }
      }
    }
    if keys != {} && exists k | k in d.fields :: Coalesce(d.fields[k], Get(o, k)).Thrown? {
      var k :| k in d.fields && Coalesce(d.fields[k], Get(o, k)).Thrown?;
      assert CoalesceKey(d, o, k).Thrown?;
    }
  }

  /**
   Two JSON objects coalesce to the union of their keys: the override's
   value is taken under a key the default lacks, the default's under a key
   the override lacks, and the two are coalesced under a shared key.
   */
  lemma CoalesceObjects(d: Value, o: Value)
    requires d.Obj? && o.Obj? && IsJson(d) && IsJson(o)
    requires Coalesce(d, o).Ok?
    ensures var r := Coalesce(d, o).value;
            && r.Obj?
            && r.fields.Keys == d.fields.Keys + o.fields.Keys
            && (forall k | k in o.fields && k !in d.fields :: r.fields[k] == o.fields[k])
            && (forall k | k in d.fields && k !in o.fields :: r.fields[k] == d.fields[k])
            && (forall k | k in d.fields && k in o.fields :: Coalesce(d.fields[k], o.fields[k]) == Ok(r.fields[k]))
  {
    CoalesceOnObjects(d, o);
    var r := Coalesce(d, o).value;
    forall k | k in d.fields ensures Coalesce(d.fields[k], Get(o, k)).value != Undefined {
      CoalesceDefined(d.fields[k], Get(o, k));
    }
    forall k ensures k in r.fields <==> k in d.fields || k in o.fields {
      assert Get(r, k) != Undefined <==> k in r.fields;
    }
  }

  /** `coalesce` with a defined default never yields `undefined`. */
  lemma CoalesceDefined(d: Value, o: Value)
    requires d != Undefined
    requires Coalesce(d, o).Ok?
    ensures Coalesce(d, o).value != Undefined
  {
  }

  /** No `null` anywhere in the value. */
  ghost predicate NullFree(v: Value)
    decreases v
  {
    !v.Null? && (v.Obj? ==> forall k | k in v.fields :: NullFree(v.fields[k]))
  }

  /**
   Coalescing a null-free JSON value with itself gives it back
   (`coalesce(null, null)` is `{}`, see `NullDefaultDropsScalar`).
   */
  lemma {:induction false} CoalesceSelf(d: Value)
    requires IsJson(d) && NullFree(d)
    ensures Coalesce(d, d) == Ok(d)
    decreases d
  {
    if d.Obj? {
      forall k | k in d.fields ensures Coalesce(d.fields[k], Get(d, k)) == Ok(d.fields[k]) {
        CoalesceSelf(d.fields[k]);
      }
      CoalesceOnObjects(d, d);
      ObjectsEqualByGet(Coalesce(d, d).value, d);
    }
  }

  // ---------------------------------------------------------------------
  // The round trip coalesce(d, diff(d, v)) == v
  // ---------------------------------------------------------------------

  /**
   `v` fully specifies a setting whose default is `d`: it is defined, it
   has every key the default has (recursively), and where the default is
   `null` the value is `null` too.
   */
  ghost predicate Covers(d: Value, v: Value)
    decreases v
  {
    && v != Undefined
    && (d.Null? ==> v.Null?)
    && (d.Obj? ==> v.Obj? && forall k | k in d.fields :: k in v.fields && Covers(d.fields[k], v.fields[k]))
  }

  /** The object case of the round trip, given the round trip under every key of `v`. */
  lemma RoundTripObject(d: Value, v: Value)
    requires d.Obj? && v.Obj? && IsJson(d) && IsJson(v) && Covers(d, v)
    requires forall k | k in v.fields ::
      Diff(Get(d, k), v.fields[k]).Ok? && Coalesce(Get(d, k), Diff(Get(d, k), v.fields[k]).value) == Ok(v.fields[k])
    ensures Diff(d, v).Ok? && Coalesce(d, Diff(d, v).value) == Ok(v)
  {
    DiffOkOnObject(d, v);
    DiffObject(d, v);
    var delta := Diff(d, v).value;
    if delta == Undefined {
      forall k | k in v.fields && Get(d, k) != v.fields[k] ensures Diff(Get(d, k), v.fields[k]).value == Undefined {
        assert Get(delta, k) == Undefined && Get(v, k) == v.fields[k];
      }
      RoundTripUnchanged(d, v);
    } else {
      forall k ensures Get(delta, k) == if k in v.fields && Get(d, k) != v.fields[k] then Diff(Get(d, k), v.fields[k]).value else Undefined {
        assert Get(v, k) == if k in v.fields then v.fields[k] else Undefined;
      }
      RoundTripChanged(d, v, delta);
    }
  }

  /** `diff` under an object default succeeds when it succeeds under every key of the value. */
  lemma DiffOkOnObject(d: Value, v: Value)
    requires d.Obj? && v.Obj?
    requires forall k | k in v.fields :: Diff(Get(d, k), v.fields[k]).Ok?
    ensures Diff(d, v).Ok?
  {
    DiffOnObject(d, v);
    forall k | k in Keys(v) ensures Diff(Get(d, k), Get(v, k)).Ok? {
      assert Get(v, k) == v.fields[k];
    }
  }

  /** A difference of `undefined` that coalesces back to `v` means `v` is the default. */
  lemma RoundTripUnchanged(d: Value, v: Value)
    requires d.Obj? && v.Obj? && IsJson(d) && IsJson(v) && Covers(d, v)
    requires forall k | k in v.fields ::
      Diff(Get(d, k), v.fields[k]).Ok? && Coalesce(Get(d, k), Diff(Get(d, k), v.fields[k]).value) == Ok(v.fields[k])
    requires forall k | k in v.fields && Get(d, k) != v.fields[k] :: Diff(Get(d, k), v.fields[k]).value == Undefined
    ensures d == v
  {
    forall k ensures Get(d, k) == Get(v, k) {
      if k in v.fields && Get(d, k) != v.fields[k] {
        assert false;
      }
    }
    ObjectsEqualByGet(d, v);
  }

  /** A defined difference, holding each changed key's difference, coalesces back to `v`. */
  lemma RoundTripChanged(d: Value, v: Value, delta: Value)
    requires d.Obj? && v.Obj? && IsJson(d) && IsJson(v) && Covers(d, v)
    requires forall k | k in v.fields ::
      Diff(Get(d, k), v.fields[k]).Ok? && Coalesce(Get(d, k), Diff(Get(d, k), v.fields[k]).value) == Ok(v.fields[k])
    requires NoUndefinedFields(delta)
    requires forall k :: Get(delta, k) == if k in v.fields && Get(d, k) != v.fields[k] then Diff(Get(d, k), v.fields[k]).value else Undefined
    ensures Coalesce(d, delta) == Ok(v)
  {
    forall k | k in d.fields ensures Coalesce(d.fields[k], Get(delta, k)) == Ok(v.fields[k]) {
      assert k in v.fields && Get(d, k) == d.fields[k];
    }
    CoalesceOnObjects(d, delta);
    var r := Coalesce(d, delta).value;
    forall k ensures Get(r, k) == Get(v, k) {
      if k !in d.fields && k in v.fields {
        assert Get(d, k) == Undefined && v.fields[k] != Undefined;
        assert Diff(Undefined, v.fields[k]) == Ok(v.fields[k]);
      }
    }
    ObjectsEqualByGet(r, v);
  }

  /**
   Coalescing a default with the difference between it and a value that
   fully specifies the setting gives the value back.
   */
  lemma {:induction false} CoalesceDiffRoundTrip(d: Value, v: Value)
    requires IsJson(d) && IsJson(v) && Covers(d, v)
    ensures Diff(d, v).Ok?
    ensures Coalesce(d, Diff(d, v).value) == Ok(v)
    decreases v, 1
  {
    if d.Obj? {
      RoundTripFields(d, v);
      RoundTripObject(d, v);
    } else {
      RoundTripNonObject(d, v);
    }
  }

  /** Under a default that is not an object, the difference is the value itself or nothing. */
  lemma RoundTripNonObject(d: Value, v: Value)
    requires !d.Obj? && IsJson(d) && IsJson(v) && Covers(d, v)
    ensures Diff(d, v).Ok? && Coalesce(d, Diff(d, v).value) == Ok(v)
  {
  }

  /** The round trip under every key of the value, from the round trip one level down. */
  lemma {:induction false} RoundTripFields(d: Value, v: Value)
    requires d.Obj? && IsJson(d) && IsJson(v) && Covers(d, v)
    ensures v.Obj?
    ensures forall k | k in v.fields ::
      Diff(Get(d, k), v.fields[k]).Ok? && Coalesce(Get(d, k), Diff(Get(d, k), v.fields[k]).value) == Ok(v.fields[k])
    decreases v, 0
  {
    forall k | k in v.fields
      ensures Diff(Get(d, k), v.fields[k]).Ok?
      ensures Coalesce(Get(d, k), Diff(Get(d, k), v.fields[k]).value) == Ok(v.fields[k])
    {
      CoversField(d, v, k);
      CoalesceDiffRoundTrip(Get(d, k), v.fields[k]);
    }
  }

  /** Under each key of the value, the default's entry is covered by the value's. */
  lemma CoversField(d: Value, v: Value, k: string)
    requires d.Obj? && IsJson(d) && IsJson(v) && Covers(d, v) && k in v.fields
    ensures IsJson(Get(d, k)) && IsJson(v.fields[k]) && Covers(Get(d, k), v.fields[k])
  {
    GetJson(d, k);
  }

  /** The round trip in the form the source states it, with deep equality. */
  lemma CoalesceDiffEqual(d: Value, v: Value)
    requires IsJson(d) && IsJson(v) && Covers(d, v)
    ensures Diff(d, v).Ok? && Coalesce(d, Diff(d, v).value).Ok?
    ensures Equal(Coalesce(d, Diff(d, v).value).value, v)
  {
    CoalesceDiffRoundTrip(d, v);
    EqualReflexive(v);
  }

  /**
   Why `Covers` insists on `null` for a `null` default: `typeof null` is
   "object", so `diff(null, 5)` finds no keys to compare and reports no
   change, and the value 5 cannot be restored.
   */
  lemma NullDefaultDropsScalar()
    ensures Diff(Null, Num(5)) == Ok(Undefined)
    ensures Coalesce(Null, Undefined) == Ok(Null)
    ensures Coalesce(Null, Num(5)) == Ok(Obj(map[]))
    ensures Coalesce(Null, Null) == Ok(Obj(map[]))
  {
  }
}
