/**
 Field-by-field merging of a style's defaults with a user's overrides:
 `coalesceFontSettings` and its line and fill variants
 (JavaScriptItemHelper in Common.ts). Each builds an object literal with a
 fixed set of fields. For a colour or a font family the override is taken
 only when it is truthy (`settings.color || defaults.color`); for every
 other field it is taken whenever it is defined
 (`settings.size !== undefined ? settings.size : defaults.size`).
 */
module FontSettings {
  import opened JsonValue

  const FontTruthyKeys: set<string> := {"family", "color"}
  const FontDefinedKeys: set<string> := {"size", "bold", "italic", "underline", "strikeout"}
  const LineTruthyKeys: set<string> := {"color"}
  const LineDefinedKeys: set<string> := {"transparency", "widthPx"}
  const FillTruthyKeys: set<string> := {"color"}
  const FillDefinedKeys: set<string> := {"transparency"}

  /** The seven fields of a font setting. */
  function FontKeys(): set<string> {
    FontTruthyKeys + FontDefinedKeys
  }

  /**
   The object literal a coalesce function returns. Every listed field is
   present in the result, even when both inputs leave it undefined; inputs
   that are missing (`defaults || {}`) contribute nothing.
   */
  function CoalesceFields(defaults: Value, settings: Value, truthyKeys: set<string>, definedKeys: set<string>): (r: Value)
    requires truthyKeys !! definedKeys
    ensures r.Obj? && r.fields.Keys == truthyKeys + definedKeys
    ensures forall k | k in truthyKeys ::
      r.fields[k] == (if Truthy(Get(settings, k)) then Get(settings, k) else Get(defaults, k))
    ensures forall k | k in definedKeys ::
      r.fields[k] == (if Get(settings, k) != Undefined then Get(settings, k) else Get(defaults, k))
  {
    var d := Or(defaults, Obj(map[]));
    var s := Or(settings, Obj(map[]));
    Obj(map k | k in truthyKeys + definedKeys ::
      if k in truthyKeys then Or(Get(s, k), Get(d, k)) else IfDefined(Get(s, k), Get(d, k)))
  }

  /** `coalesceFontSettings(defaults, settings)`. */
  function CoalesceFontSettings(defaults: Value, settings: Value): (r: Value)
    ensures r.Obj? && r.fields.Keys == FontKeys()
    ensures forall k | k in FontTruthyKeys ::
      r.fields[k] == (if Truthy(Get(settings, k)) then Get(settings, k) else Get(defaults, k))
    ensures forall k | k in FontDefinedKeys ::
      r.fields[k] == (if Get(settings, k) != Undefined then Get(settings, k) else Get(defaults, k))
  {
    CoalesceFields(defaults, settings, FontTruthyKeys, FontDefinedKeys)
  }

  /** `coalesceLineSettings(defaults, settings)`. */
  function CoalesceLineSettings(defaults: Value, settings: Value): (r: Value)
    ensures r.Obj? && r.fields.Keys == {"color", "transparency", "widthPx"}
    ensures r.fields["color"] == (if Truthy(Get(settings, "color")) then Get(settings, "color") else Get(defaults, "color"))
    ensures forall k | k in LineDefinedKeys ::
      r.fields[k] == (if Get(settings, k) != Undefined then Get(settings, k) else Get(defaults, k))
  {
    CoalesceFields(defaults, settings, LineTruthyKeys, LineDefinedKeys)
  }

  /** `coalesceFillSettings(defaults, settings)`. */
  function CoalesceFillSettings(defaults: Value, settings: Value): (r: Value)
    ensures r.Obj? && r.fields.Keys == {"color", "transparency"}
    ensures r.fields["color"] == (if Truthy(Get(settings, "color")) then Get(settings, "color") else Get(defaults, "color"))
    ensures r.fields["transparency"] ==
      (if Get(settings, "transparency") != Undefined then Get(settings, "transparency") else Get(defaults, "transparency"))
  {
    CoalesceFields(defaults, settings, FillTruthyKeys, FillDefinedKeys)
  }

  /** Coalescing again with the same defaults changes nothing. */
  lemma CoalesceFieldsIdempotent(defaults: Value, settings: Value, truthyKeys: set<string>, definedKeys: set<string>)
    requires truthyKeys !! definedKeys
    ensures var once := CoalesceFields(defaults, settings, truthyKeys, definedKeys);
            CoalesceFields(defaults, once, truthyKeys, definedKeys) == once
  {
    var once := CoalesceFields(defaults, settings, truthyKeys, definedKeys);
    var twice := CoalesceFields(defaults, once, truthyKeys, definedKeys);
    assert twice.fields.Keys == once.fields.Keys;
    forall k | k in once.fields ensures twice.fields[k] == once.fields[k] {
      assert Get(once, k) == once.fields[k];
    }
  }

  /** A font coalesced with its own defaults a second time is unchanged. */
  lemma CoalesceFontIdempotent(defaults: Value, settings: Value)
    ensures var once := CoalesceFontSettings(defaults, settings);
            CoalesceFontSettings(defaults, once) == once
  {
    CoalesceFieldsIdempotent(defaults, settings, FontTruthyKeys, FontDefinedKeys);
  }

  /**
   A font that sets all seven fields (family and colour non-empty) wins
   outright: the defaults do not show through.
   */
  lemma CompleteFontOverridesDefaults(defaults: Value, font: Value)
    requires font.Obj? && font.fields.Keys == FontKeys()
    requires forall k | k in FontDefinedKeys :: font.fields[k] != Undefined
    requires forall k | k in FontTruthyKeys :: Truthy(font.fields[k])
    ensures CoalesceFontSettings(defaults, font) == font
  {
    var r := CoalesceFontSettings(defaults, font);
    forall k | k in font.fields ensures r.fields[k] == font.fields[k] {
      assert k in FontTruthyKeys || k in FontDefinedKeys;
    }
  }
}
