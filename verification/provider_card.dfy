/**
 * The provider editor of `web/src/components/ProviderCard.tsx`: the
 * per-type presets, the type switch that may replace the vars with a
 * preset, and the edits of the `vars` list.
 */
module ProviderCard {
  import opened Text
  import opened Types

  /** `PRESETS[t]`: the vars a fresh provider of kind `t` starts with. */
  function Preset(t: ProviderType): seq<EnvVar>
  {
    match t
    case Gemini => [EnvVar("GOOGLE_API_KEY", ""), EnvVar("GOOGLE_API_BASE_URL", "")]
    case Claude => [EnvVar("ANTHROPIC_AUTH_TOKEN", ""), EnvVar("ANTHROPIC_BASE_URL", "")]
    case OpenAI => [
      EnvVar("OPENAI_API_KEY", ""),
      EnvVar("OPENAI_BASE_URL", ""),
      EnvVar("OPENAI_MODEL", "gpt-5.2"),
      EnvVar("OPENAI_MODEL_PROVIDER", "anyProvider"),
      EnvVar("OPENAI_REASONING_EFFORT", "high")]
    case Custom => [EnvVar("", "")]
  }

  /** `vars.map(v => v.key).filter(k => k !== '')`. */
  function NonEmptyKeys(vars: seq<EnvVar>): (keys: seq<string>)
    ensures |keys| <= |vars|
    ensures forall i :: 0 <= i < |keys| ==> keys[i] != ""
    ensures forall i :: 0 <= i < |keys| ==> exists j :: 0 <= j < |vars| && vars[j].key == keys[i]
    ensures forall j :: 0 <= j < |vars| && vars[j].key != "" ==> vars[j].key in keys
  {
    if |vars| == 0 then []
    else
      var rest := NonEmptyKeys(vars[1..]);
      assert forall i :: 0 <= i < |rest| ==> exists j :: 0 <= j < |vars| && vars[j].key == rest[i] by {
        forall i | 0 <= i < |rest| ensures exists j :: 0 <= j < |vars| && vars[j].key == rest[i] {
          var j :| 0 <= j < |vars| - 1 && vars[1..][j].key == rest[i];
          assert vars[j + 1].key == rest[i];
        }
      }
      assert forall j :: 1 <= j < |vars| && vars[j].key != "" ==> vars[j].key in rest by {
        forall j | 1 <= j < |vars| && vars[j].key != "" ensures vars[j].key in rest {
          assert vars[1..][j - 1] == vars[j];
        }
      }
      if vars[0].key != "" then [vars[0].key] + rest else rest
  }

  /**
   * The filter works entry by entry, keeping order: the keys of a
   * concatenation are the keys of each part, one after the other.
   */
  lemma {:induction false} NonEmptyKeysAppend(a: seq<EnvVar>, b: seq<EnvVar>)
    ensures NonEmptyKeys(a + b) == NonEmptyKeys(a) + NonEmptyKeys(b)
    decreases |a|
  {
    if |a| > 0 {
      assert (a + b)[1..] == a[1..] + b;
      NonEmptyKeysAppend(a[1..], b);
    } else {
      assert a + b == b;
    }
  }

  /** One entry contributes its key exactly when the key is non-empty. */
  lemma NonEmptyKeysSingle(v: EnvVar)
    ensures NonEmptyKeys([v]) == if v.key != "" then [v.key] else []
  {
    assert [v][1..] == [];
  }

  /** The non-empty keys joined by `,`: what the type switch compares. */
  function KeySignature(vars: seq<EnvVar>): string
  {
    Join(NonEmptyKeys(vars), ',')
  }

  /**
   * `isDefaultOrEmpty`: no vars, or the same key signature as some preset.
   * `Object.values(PRESETS)` holds one preset per provider type, so "some
   * preset" ranges over every type.
   */
  predicate IsDefaultOrEmpty(vars: seq<EnvVar>)
  {
    |vars| == 0 || exists t: ProviderType :: KeySignature(Preset(t)) == KeySignature(vars)
  }

  /**
   * `handleTypeChange(newType)`: the kind becomes `newType` and the id is
   * kept; the vars become a fresh copy of the new preset when they are
   * empty or still match a preset's keys, and are otherwise kept.
   */
  function HandleTypeChange(p: ProviderConfig, newType: ProviderType): (r: ProviderConfig)
    ensures r.id == p.id && r.kind == newType
    ensures r.vars == Preset(newType) || r.vars == p.vars
    ensures |p.vars| == 0 ==> r.vars == Preset(newType)
  {
    var vars := if IsDefaultOrEmpty(p.vars) then Preset(newType) else p.vars;
    p.(kind := newType, vars := vars)
  }

  /** Preset keys contain no `,`. */
  lemma PresetKeysHaveNoComma(t: ProviderType)
    ensures forall i :: 0 <= i < |Preset(t)| ==> ',' !in Preset(t)[i].key
  {
    match t
    case Gemini =>
      assert ',' !in "GOOGLE_API_KEY" && ',' !in "GOOGLE_API_BASE_URL";
    case Claude =>
      assert ',' !in "ANTHROPIC_AUTH_TOKEN" && ',' !in "ANTHROPIC_BASE_URL";
    case OpenAI =>
      assert ',' !in "OPENAI_API_KEY" && ',' !in "OPENAI_BASE_URL" && ',' !in "OPENAI_MODEL";
      assert ',' !in "OPENAI_MODEL_PROVIDER" && ',' !in "OPENAI_REASONING_EFFORT";
    case Custom =>
  }

  /** With comma-free keys, equal signatures mean equal non-empty key lists. */
  lemma SignatureMatchesKeys(a: seq<EnvVar>, b: seq<EnvVar>)
    requires forall i :: 0 <= i < |a| ==> ',' !in a[i].key
    requires forall i :: 0 <= i < |b| ==> ',' !in b[i].key
    ensures KeySignature(a) == KeySignature(b) <==> NonEmptyKeys(a) == NonEmptyKeys(b)
  {
    if KeySignature(a) == KeySignature(b) {
      var ka, kb := NonEmptyKeys(a), NonEmptyKeys(b);
      forall i | 0 <= i < |ka| ensures ',' !in ka[i] {
        var j :| 0 <= j < |a| && a[j].key == ka[i];
      }
      forall i | 0 <= i < |kb| ensures ',' !in kb[i] {
        var j :| 0 <= j < |b| && b[j].key == kb[i];
      }
      JoinInjective(ka, kb, ',');
    }
  }

  /** For comma-free vars, matching one preset's signature is matching its key list. */
  lemma PresetSignatureMatch(vars: seq<EnvVar>, t: ProviderType)
    requires forall i :: 0 <= i < |vars| ==> ',' !in vars[i].key
    ensures KeySignature(Preset(t)) == KeySignature(vars) <==> NonEmptyKeys(vars) == NonEmptyKeys(Preset(t))
  {
    PresetKeysHaveNoComma(t);
    SignatureMatchesKeys(Preset(t), vars);
  }

  /** Comma-free vars whose key list is a preset's count as a preset. */
  lemma PresetKeysCountAsPreset(vars: seq<EnvVar>, t: ProviderType)
    requires forall i :: 0 <= i < |vars| ==> ',' !in vars[i].key
    ensures NonEmptyKeys(vars) == NonEmptyKeys(Preset(t)) ==> IsDefaultOrEmpty(vars)
  {
    PresetSignatureMatch(vars, t);
  }

  /** Non-empty comma-free vars that count as a preset have some preset's key list. */
  lemma PresetMatchHasPresetKeys(vars: seq<EnvVar>)
    requires forall i :: 0 <= i < |vars| ==> ',' !in vars[i].key
    requires |vars| > 0 && IsDefaultOrEmpty(vars)
    ensures exists t :: NonEmptyKeys(vars) == NonEmptyKeys(Preset(t))
  {
    var t :| KeySignature(Preset(t)) == KeySignature(vars);
    PresetSignatureMatch(vars, t);
  }

  /**
   * When no key contains `,`, the type switch replaces the vars exactly
   * when they are empty or their non-empty keys, in order, are those of
   * some preset.
   */
  lemma TypeChangeByKeys(p: ProviderConfig, newType: ProviderType)
    requires forall i :: 0 <= i < |p.vars| ==> ',' !in p.vars[i].key
    ensures HandleTypeChange(p, newType).vars ==
            if |p.vars| == 0 || exists t :: NonEmptyKeys(p.vars) == NonEmptyKeys(Preset(t))
            then Preset(newType) else p.vars
  {
    if exists t :: NonEmptyKeys(p.vars) == NonEmptyKeys(Preset(t)) {
      var t :| NonEmptyKeys(p.vars) == NonEmptyKeys(Preset(t));
      PresetKeysCountAsPreset(p.vars, t);
    }
    if |p.vars| > 0 && IsDefaultOrEmpty(p.vars) {
      PresetMatchHasPresetKeys(p.vars);
    }
  }

  /** A single-var provider whose key is the Gemini keys joined by `,`. */
  const CommaKeyed: ProviderConfig :=
    ProviderConfig("p1", Custom, [EnvVar(Preset(Gemini)[0].key + "," + Preset(Gemini)[1].key, "secret")])

  /** Its key list is that of no preset. */
  lemma CommaKeyMatchesNoPreset(t: ProviderType)
    ensures NonEmptyKeys(CommaKeyed.vars) != NonEmptyKeys(Preset(t))
  {
    assert NonEmptyKeys(CommaKeyed.vars) == [CommaKeyed.vars[0].key] by {
      assert NonEmptyKeys(CommaKeyed.vars[1..]) == [];
    }
    match t
    case Gemini =>
      assert |NonEmptyKeys(Preset(Gemini))| == 2;
    case Claude =>
      assert |NonEmptyKeys(Preset(Claude))| == 2;
    case OpenAI =>
      assert |NonEmptyKeys(Preset(OpenAI))| == 5;
    case Custom =>
      assert NonEmptyKeys(Preset(Custom)) == [];
  }

  /**
   * The comparison is of joined strings, so that provider counts as
   * "still a preset" and its var is replaced on a type switch, although
   * no preset has its key list.
   */
  lemma CommaKeyCountsAsPreset()
    ensures HandleTypeChange(CommaKeyed, Claude).vars == Preset(Claude)
  {
    CommaKeySignature();
  }

  /** The Gemini signature and the comma-joined key are the same string. */
  lemma CommaKeySignature()
    ensures KeySignature(CommaKeyed.vars) == KeySignature(Preset(Gemini))
  {
    var g := Preset(Gemini);
    GeminiKeys();
    var k := CommaKeyed.vars[0].key;
    assert NonEmptyKeys(CommaKeyed.vars) == [k] by {
      assert NonEmptyKeys(CommaKeyed.vars[1..]) == [];
    }
    assert Join([g[0].key, g[1].key], ',') == k;
  }

  /** The Gemini preset's non-empty keys are its two keys. */
  lemma GeminiKeys()
    ensures NonEmptyKeys(Preset(Gemini)) == [Preset(Gemini)[0].key, Preset(Gemini)[1].key]
  {
    var g := Preset(Gemini);
    assert NonEmptyKeys(g[1..][1..]) == [];
    assert NonEmptyKeys(g[1..]) == [g[1].key];
  }

  /** Vars whose keys are all empty match the `custom` preset, so the type switch replaces them. */
  lemma BlankKeysCountAsPreset(vars: seq<EnvVar>)
    requires forall i :: 0 <= i < |vars| ==> vars[i].key == ""
    ensures IsDefaultOrEmpty(vars)
  {
    assert NonEmptyKeys(vars) == [] by {
      if |NonEmptyKeys(vars)| > 0 {
        var j :| 0 <= j < |vars| && vars[j].key == NonEmptyKeys(vars)[0];
      }
    }
    assert NonEmptyKeys(Preset(Custom)) == [];
  }

  /** Which half of a var an edit changes. */
  datatype Field = Key | Value

  /**
   * `updateVar(index, field, val)`: only `field` of entry `index` changes;
   * the length and every other entry stay the same.
   */
  function UpdateVar(p: ProviderConfig, index: int, field: Field, val: string): (r: ProviderConfig)
    requires 0 <= index < |p.vars|
    ensures r.id == p.id && r.kind == p.kind && |r.vars| == |p.vars|
    ensures forall j :: 0 <= j < |p.vars| && j != index ==> r.vars[j] == p.vars[j]
    ensures field == Key ==> r.vars[index] == EnvVar(val, p.vars[index].value)
    ensures field == Value ==> r.vars[index] == EnvVar(p.vars[index].key, val)
  {
    var v := p.vars[index];
    var edited := match field
      case Key => v.(key := val)
      case Value => v.(value := val);
    p.(vars := p.vars[index := edited])
  }

  /** Writing back the value a field already holds leaves the provider as it was. */
  lemma UpdateWithCurrentValue(p: ProviderConfig, index: int)
    requires 0 <= index < |p.vars|
    ensures UpdateVar(p, index, Key, p.vars[index].key) == p
    ensures UpdateVar(p, index, Value, p.vars[index].value) == p
  {
    assert UpdateVar(p, index, Key, p.vars[index].key).vars == p.vars;
    assert UpdateVar(p, index, Value, p.vars[index].value).vars == p.vars;
  }

  /** `addVar()`: one blank entry appended after the unchanged vars. */
  function AddVar(p: ProviderConfig): (r: ProviderConfig)
    ensures r.id == p.id && r.kind == p.kind
    ensures |r.vars| == |p.vars| + 1 && r.vars[..|p.vars|] == p.vars
    ensures r.vars[|p.vars|] == EnvVar("", "")
  {
    p.(vars := p.vars + [EnvVar("", "")])
  }

  /**
   * `vars.filter((_, i) => i !== index)`: every entry except the one at
   * `index`, in order; an index outside the list removes nothing.
   */
  function Without(vars: seq<EnvVar>, index: int): (r: seq<EnvVar>)
    ensures 0 <= index < |vars| ==> r == vars[..index] + vars[index + 1..]
    ensures !(0 <= index < |vars|) ==> r == vars
  {
    if |vars| == 0 then []
    else
      var rest := Without(vars[1..], index - 1);
      assert 0 < index < |vars| ==> vars[1..][..index - 1] == vars[1..index];
      (if index == 0 then [] else [vars[0]]) + rest
  }

  /** `removeVar(index)`: exactly entry `index` removed, the rest kept in order. */
  function RemoveVar(p: ProviderConfig, index: int): (r: ProviderConfig)
    ensures r.id == p.id && r.kind == p.kind
    ensures 0 <= index < |p.vars| ==>
              && |r.vars| == |p.vars| - 1
              && multiset(r.vars) + multiset{p.vars[index]} == multiset(p.vars)
    ensures !(0 <= index < |p.vars|) ==> r.vars == p.vars
    ensures forall j :: 0 <= j < |r.vars| ==> r.vars[j] == p.vars[if 0 <= index <= j then j + 1 else j]
  {
    assert 0 <= index < |p.vars| ==> p.vars == p.vars[..index] + [p.vars[index]] + p.vars[index + 1..];
    p.(vars := Without(p.vars, index))
  }

  /** Removing the entry just added gives back the provider. */
  lemma AddThenRemove(p: ProviderConfig)
    ensures RemoveVar(AddVar(p), |p.vars|) == p
  {
    assert AddVar(p).vars[..|p.vars|] == p.vars;
  }
}
