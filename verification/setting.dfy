/**
 A setting bound to persisted storage (`Setting<T>` and `FontSetting` in
 Common.ts). The storage keeps only the difference between the user's value
 and the setting's default; reading coalesces the default with that stored
 difference.
 */
module SettingBinding {
  import opened Wrappers
  import opened JsonValue
  import opened FontSettings
  import opened Settings

  /**
   `Plain` is the base `Setting<T>`, whose `coalesce` takes the stored value
   whenever it is defined; `Font` is `FontSetting`, which coalesces field by
   field. Both use `diff` as their `difference`.
   */
  datatype Kind = Plain | Font

  /** `getValue()`: the default coalesced with what the binding stores. */
  function GetValue(kind: Kind, default: Value, stored: Value): Value {
    match kind
    case Plain => if stored == Undefined then default else stored
    case Font => CoalesceFontSettings(default, stored)
  }

  /** What the binding holds after `setValue`, and whether listeners were told. */
  datatype Update = Update(stored: Value, notified: bool)

  /**
   `setValue(value)`: the difference from the default is written, and
   `onSettingsChanged` called, only when it is not `equal` to what is
   already stored. Computing the difference may throw (a `null` default).
   */
  function SetValue(default: Value, stored: Value, value: Value): (r: Outcome<Update>)
    ensures r.Thrown? <==> Diff(default, value).Thrown?
    ensures r.Ok? ==> (r.value.notified <==> !Equal(Diff(default, value).value, stored))
    ensures r.Ok? && !r.value.notified ==> r.value.stored == stored
    ensures r.Ok? && r.value.notified ==> r.value.stored == Diff(default, value).value
  {
    match Diff(default, value)
    case Thrown => Thrown
    case Ok(delta) =>
      if !Equal(delta, stored) then Ok(Update(delta, true)) else Ok(Update(stored, false))
  }

  /** Setting the same value twice stores nothing new and notifies nobody the second time. */
  lemma SetValueIdempotent(default: Value, stored: Value, value: Value)
    requires SetValue(default, stored, value).Ok?
    ensures var u := SetValue(default, stored, value).value;
            SetValue(default, u.stored, value) == Ok(Update(u.stored, false))
  {
    EqualReflexive(Diff(default, value).value);
  }

  /**
   A plain setting whose default is a primitive (every plain setting of the
   plot holds a boolean, number or string) reads back the value last set.
   The stored value is persisted JSON.
   */
  lemma SetThenGetPlain(default: Value, stored: Value, value: Value)
    requires default == Undefined || IsScalar(default)
    requires value != Undefined && IsJson(value) && IsJson(stored)
    ensures SetValue(default, stored, value).Ok?
    ensures GetValue(Plain, default, SetValue(default, stored, value).value.stored) == value
  {
    var delta := Diff(default, value).value;
    EqualIsStructural(delta, stored);
  }

  /**
   The base class's shallow `coalesce` does not undo `diff` for an object
   default: a key whose value equals the default's is not stored, and reading
   back returns the stored object without it.
   */
  lemma PlainObjectDefaultLosesKeys(d: Value, v: Value, same: string, changed: string)
    requires d.Obj? && v.Obj? && IsJson(d) && IsJson(v)
    requires same in v.fields && Get(d, same) == v.fields[same]
    requires changed in v.fields && IsScalar(v.fields[changed]) && IsScalar(Get(d, changed))
    requires Get(d, changed) != v.fields[changed]
    requires Diff(d, v).Ok?
    ensures GetValue(Plain, d, Diff(d, v).value) != v
  {
    DiffObject(d, v);
    var delta := Diff(d, v).value;
    assert Get(delta, changed) == v.fields[changed] by {
      assert Diff(Get(d, changed), v.fields[changed]) == Ok(v.fields[changed]);
    }
    assert Get(delta, same) == Undefined;
    assert Get(v, same) != Undefined;
    assert GetValue(Plain, d, delta) == delta;
  }

  /**
   With the deep `coalesce` in place of the shallow one, the law stated for
   `Setting.coalesce` holds: after `setValue(v)`, coalescing the default with
   what is stored gives `v` back, for every value the default covers.
   */
  lemma SetThenGetDeep(default: Value, stored: Value, value: Value)
    requires IsJson(default) && IsJson(value) && IsJson(stored) && Covers(default, value)
    ensures SetValue(default, stored, value).Ok?
    ensures Coalesce(default, SetValue(default, stored, value).value.stored) == Ok(value)
  {
    CoalesceDiffRoundTrip(default, value);
    DiffIsJson(default, value);
    EqualIsStructural(Diff(default, value).value, stored);
  }

  /**
   A font as the font dialog produces it: all seven fields set to
   primitives, with a non-empty family and colour.
   */
  ghost predicate CompleteFont(v: Value) {
    && v.Obj? && v.fields.Keys == FontKeys()
    && (forall k | k in FontKeys() :: IsScalar(v.fields[k]))
    && (forall k | k in FontTruthyKeys :: Truthy(v.fields[k]))
  }

  /** A font default whose fields, where present, are primitives. */
  ghost predicate FlatFontDefault(d: Value) {
    d == Undefined || (d.Obj? && IsJson(d) && forall k | k in FontKeys() :: Get(d, k) == Undefined || IsScalar(Get(d, k)))
  }

  /**
   The difference between a complete font and a flat default holds exactly
   the fields where they disagree, with the font's values.
   */
  lemma FontDiff(default: Value, value: Value)
    requires default.Obj? && FlatFontDefault(default) && CompleteFont(value)
    ensures Diff(default, value).Ok?
    ensures var delta := Diff(default, value).value;
            && IsJson(delta)
            && forall k | k in FontKeys() ::
                 Get(delta, k) == if Get(default, k) == value.fields[k] then Undefined else value.fields[k]
  {
    forall k | k in Keys(value)
      ensures Diff(Get(default, k), Get(value, k)) == Ok(if Get(default, k) == Get(value, k) then Undefined else Get(value, k))
      ensures Equal(Get(default, k), Get(value, k)) <==> Get(default, k) == Get(value, k)
    {
      DiffScalar(Get(default, k), Get(value, k));
    }
    DiffOnObject(default, value);
    var delta := Diff(default, value).value;
    forall k | k in FontKeys()
      ensures Get(delta, k) == if Get(default, k) == value.fields[k] then Undefined else value.fields[k]
    {
      assert Get(value, k) == value.fields[k];
    }
    if delta != Undefined {
      forall k | k in delta.fields ensures IsJson(delta.fields[k]) {
        assert Get(delta, k) == delta.fields[k];
      }
    }
  }

  /** A primitive's difference from a primitive or missing default. */
  lemma DiffScalar(d: Value, s: Value)
    requires IsScalar(s) && (d == Undefined || IsScalar(d))
    ensures Diff(d, s) == Ok(if d == s then Undefined else s)
    ensures Equal(d, s) <==> d == s
  {
  }

  /** Coalescing the difference back into the default restores the font. */
  lemma FontRoundTrip(default: Value, value: Value, delta: Value)
    requires default.Obj? && CompleteFont(value)
    requires forall k | k in FontKeys() ::
      Get(delta, k) == if Get(default, k) == value.fields[k] then Undefined else value.fields[k]
    ensures CoalesceFontSettings(default, delta) == value
  {
    var r := CoalesceFontSettings(default, delta);
    forall k | k in FontKeys() ensures r.fields[k] == value.fields[k] {
      if k in FontTruthyKeys {
        assert r.fields[k] == (if Truthy(Get(delta, k)) then Get(delta, k) else Get(default, k));
      } else {
        assert r.fields[k] == (if Get(delta, k) != Undefined then Get(delta, k) else Get(default, k));
      }
    }
  }

  /** A font setting reads back the complete font last set. */
  lemma SetThenGetFont(default: Value, stored: Value, value: Value)
    requires FlatFontDefault(default) && CompleteFont(value) && IsJson(stored)
    ensures SetValue(default, stored, value).Ok?
    ensures GetValue(Font, default, SetValue(default, stored, value).value.stored) == value
  {
    assert IsJson(value);
    if default == Undefined {
      EqualIsStructural(value, stored);
      CompleteFontOverridesDefaults(default, value);
    } else {
      FontDiff(default, value);
      var delta := Diff(default, value).value;
      EqualIsStructural(delta, stored);
      assert SetValue(default, stored, value).value.stored == delta;
      FontRoundTrip(default, value, delta);
    }
  }
}
