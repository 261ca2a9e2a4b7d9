/**
 * Environment maps built by assigning `KEY=VALUE` entries in order, each
 * assignment overwriting the previous value of its key. This is the
 * `forEach` loop shared by the runner's flattening and both `KEY=VALUE`
 * parsers; an absent entry (`None`) is one the parser skipped.
 */
module EnvMap {
  import opened Wrappers
  import opened Types

  type Env = map<string, string>

  /**
   * The one key a plain JavaScript object does not store: `obj['__proto__']
   * = value` goes to the prototype setter, which ignores a string, so the
   * object gains no such property.
   */
  const ProtoKey: string := "__proto__"

  /** Entry `i` assigns key `k` (and so `k` is not `__proto__`). */
  predicate Assigns(entries: seq<Option<EnvVar>>, i: int, k: string)
  {
    0 <= i < |entries| && entries[i].Some? && entries[i].value.key == k && k != ProtoKey
  }

  /** Some entry assigns key `k`. */
  predicate Mentions(entries: seq<Option<EnvVar>>, k: string)
  {
    exists i :: 0 <= i < |entries| && Assigns(entries, i, k)
  }

  /** Entry `i` assigns its key and no later entry assigns that key again. */
  predicate IsLastFor(entries: seq<Option<EnvVar>>, i: int)
  {
    && 0 <= i < |entries|
    && entries[i].Some?
    && entries[i].value.key != ProtoKey
    && forall j :: i < j < |entries| ==> !Assigns(entries, j, entries[i].value.key)
  }

  /** One assignment `env[key] = value`; a skipped entry or the `__proto__` key changes nothing. */
  function Step(env: Env, entry: Option<EnvVar>): Env
  {
    match entry
    case Some(v) => if v.key == ProtoKey then env else env[v.key := v.value]
    case None => env
  }

  /** Runs the assignments `env[key] = value` of `entries` in order, starting from `env`. */
  function Assign(env: Env, entries: seq<Option<EnvVar>>): Env
    decreases |entries|
  {
    if |entries| == 0 then env
    else Assign(Step(env, entries[0]), entries[1..])
  }

  /** Every present entry, in order. */
  function Present(vars: seq<EnvVar>): (entries: seq<Option<EnvVar>>)
    ensures |entries| == |vars|
    ensures forall i :: 0 <= i < |vars| ==> entries[i] == Some(vars[i])
  {
    seq(|vars|, i requires 0 <= i < |vars| => Some(vars[i]))
  }

  /** The assigned keys are the starting keys plus every key an entry assigns. */
  lemma {:induction false} AssignKeys(env: Env, entries: seq<Option<EnvVar>>, k: string)
    ensures k in Assign(env, entries) <==> k in env || Mentions(entries, k)
    decreases |entries|
  {
    if |entries| > 0 {
      var next := Step(env, entries[0]);
      AssignKeys(next, entries[1..], k);
      assert Assign(env, entries) == Assign(next, entries[1..]);
      assert k in next <==> k in env || Assigns(entries, 0, k);
      if Mentions(entries[1..], k) {
        var i :| 0 <= i < |entries| - 1 && Assigns(entries[1..], i, k);
        assert Assigns(entries, i + 1, k);
      }
      if Mentions(entries, k) && !Assigns(entries, 0, k) {
        var i :| 0 <= i < |entries| && Assigns(entries, i, k);
        assert Assigns(entries[1..], i - 1, k);
      }
    }
  }

  /** A key no entry assigns keeps its starting value. */
  lemma {:induction false} AssignKeeps(env: Env, entries: seq<Option<EnvVar>>, k: string)
    requires k in env && !Mentions(entries, k)
    ensures k in Assign(env, entries) && Assign(env, entries)[k] == env[k]
    decreases |entries|
  {
    if |entries| > 0 {
      assert !Assigns(entries, 0, k);
      var next := Step(env, entries[0]);
      if Mentions(entries[1..], k) {
        var i :| 0 <= i < |entries| - 1 && Assigns(entries[1..], i, k);
        assert Assigns(entries, i + 1, k);
      }
      AssignKeeps(next, entries[1..], k);
    }
  }

  /** The last entry assigning a key determines that key's final value. */
  lemma {:induction false} AssignLastWins(env: Env, entries: seq<Option<EnvVar>>, i: int)
    requires IsLastFor(entries, i)
    ensures entries[i].value.key in Assign(env, entries)
    ensures Assign(env, entries)[entries[i].value.key] == entries[i].value.value
    decreases |entries|
  {
    var v := entries[i].value;
    var next := Step(env, entries[0]);
    if i == 0 {
      assert next[v.key] == v.value;
      if Mentions(entries[1..], v.key) {
        var j :| 0 <= j < |entries| - 1 && Assigns(entries[1..], j, v.key);
        assert Assigns(entries, j + 1, v.key);
      }
      AssignKeeps(next, entries[1..], v.key);
    } else {
      forall j | i - 1 < j < |entries| - 1
        ensures !Assigns(entries[1..], j, v.key)
      {
        assert !Assigns(entries, j + 1, v.key);
      }
      assert IsLastFor(entries[1..], i - 1);
      AssignLastWins(next, entries[1..], i - 1);
    }
  }

  /**
   * The full meaning of `Assign`: the resulting keys, which values survive
   * untouched, and that the last assignment to a key wins.
   */
  lemma AssignSpec(env: Env, entries: seq<Option<EnvVar>>)
    ensures forall k :: k in Assign(env, entries) <==> k in env || Mentions(entries, k)
    ensures forall k :: k in env && !Mentions(entries, k) ==> Assign(env, entries)[k] == env[k]
    ensures forall i :: IsLastFor(entries, i) ==>
              && entries[i].value.key in Assign(env, entries)
              && Assign(env, entries)[entries[i].value.key] == entries[i].value.value
  {
    forall k ensures k in Assign(env, entries) <==> k in env || Mentions(entries, k) {
      AssignKeys(env, entries, k);
    }
    forall k | k in env && !Mentions(entries, k)
      ensures Assign(env, entries)[k] == env[k]
    {
      AssignKeeps(env, entries, k);
    }
    forall i | IsLastFor(entries, i)
      ensures entries[i].value.key in Assign(env, entries)
      ensures Assign(env, entries)[entries[i].value.key] == entries[i].value.value
    {
      AssignLastWins(env, entries, i);
    }
  }

  /** Starting from `{}`, the keys are exactly those some entry carries, except `__proto__`. */
  lemma AssignedKeys(entries: seq<Option<EnvVar>>)
    ensures forall k :: k in Assign(map[], entries) <==>
              k != ProtoKey && exists i :: 0 <= i < |entries| && entries[i].Some? && entries[i].value.key == k
  {
    forall k ensures k in Assign(map[], entries) <==>
                     k != ProtoKey && exists i :: 0 <= i < |entries| && entries[i].Some? && entries[i].value.key == k
    {
      AssignKeys(map[], entries, k);
      if k != ProtoKey && exists i :: 0 <= i < |entries| && entries[i].Some? && entries[i].value.key == k {
        var i :| 0 <= i < |entries| && entries[i].Some? && entries[i].value.key == k;
        assert Assigns(entries, i, k);
      }
    }
  }

  /**
   * `{ ...inherited, ...overrides }`: every key of either map, with the
   * override's value where it has one and the inherited value otherwise.
   */
  function Overlay(inherited: Env, overrides: Env): (env: Env)
    ensures forall k :: k in env <==> k in inherited || k in overrides
    ensures forall k :: k in overrides ==> env[k] == overrides[k]
    ensures forall k :: k in inherited && k !in overrides ==> env[k] == inherited[k]
  {
    inherited + overrides
  }
}
