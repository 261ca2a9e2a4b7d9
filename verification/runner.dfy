/**
 * `runCommand` of `src/core/runner.ts`: look the profile up, flatten its
 * provider chain into one environment map, lay that over the inherited
 * environment, spawn the command and map how the child ended to the
 * runner's exit code. Spawning is a parameter: `child` says how the child
 * process ended.
 */
module Runner {
  import opened Wrappers
  import opened Types
  import opened EnvMap
  import Profiles

  /** Every var of the chain: providers in chain order, each provider's vars in order. */
  function ChainVars(chain: seq<ProviderConfig>): seq<EnvVar>
  {
    if |chain| == 0 then [] else chain[0].vars + ChainVars(chain[1..])
  }

  /** The nested `forEach` that sets `profileEnv[v.key] = v.value` for every var of the chain. */
  function Flatten(chain: seq<ProviderConfig>): Env
  {
    Assign(map[], Present(ChainVars(chain)))
  }

  /** Some var of `vars` has key `k`. */
  predicate HasKey(vars: seq<EnvVar>, k: string)
  {
    exists i :: 0 <= i < |vars| && vars[i].key == k
  }

  /** `ChainVars` of a concatenation is the concatenation of the `ChainVars`. */
  lemma {:induction false} ChainVarsAppend(a: seq<ProviderConfig>, b: seq<ProviderConfig>)
    ensures ChainVars(a + b) == ChainVars(a) + ChainVars(b)
    decreases |a|
  {
    if |a| > 0 {
      assert (a + b)[0] == a[0];
      assert (a + b)[1..] == a[1..] + b;
      ChainVarsAppend(a[1..], b);
      assert ChainVars(a + b) == a[0].vars + ChainVars(a[1..] + b);
    } else {
      assert a + b == b;
    }
  }

  /** A key occurs among the chain's vars exactly when some provider has a var with that key. */
  lemma {:induction false} ChainVarsKeys(chain: seq<ProviderConfig>, k: string)
    ensures (exists i :: 0 <= i < |ChainVars(chain)| && ChainVars(chain)[i].key == k)
            <==> (exists q, j :: 0 <= q < |chain| && 0 <= j < |chain[q].vars| && chain[q].vars[j].key == k)
    decreases |chain|
  {
    if |chain| > 0 {
      var vars := ChainVars(chain);
      var head := chain[0].vars;
      ChainVarsKeys(chain[1..], k);
      if exists i :: 0 <= i < |vars| && vars[i].key == k {
        var i :| 0 <= i < |vars| && vars[i].key == k;
        if i < |head| {
          assert chain[0].vars[i].key == k;
        } else {
          assert ChainVars(chain[1..])[i - |head|].key == k;
          var q, j :| 0 <= q < |chain| - 1 && 0 <= j < |chain[1..][q].vars| && chain[1..][q].vars[j].key == k;
          assert chain[q + 1].vars[j].key == k;
        }
      }
      if exists q, j :: 0 <= q < |chain| && 0 <= j < |chain[q].vars| && chain[q].vars[j].key == k {
        var q, j :| 0 <= q < |chain| && 0 <= j < |chain[q].vars| && chain[q].vars[j].key == k;
        if q == 0 {
          assert vars[j].key == k;
        } else {
          assert chain[1..][q - 1].vars[j].key == k;
          var i :| 0 <= i < |ChainVars(chain[1..])| && ChainVars(chain[1..])[i].key == k;
          assert vars[|head| + i].key == k;
        }
      }
    }
  }

  /**
   * The flattened map holds exactly the keys of the chain's vars other
   * than `__proto__`, and each key has the value of its last occurrence in
   * chain order.
   */
  lemma FlattenSpec(chain: seq<ProviderConfig>)
    ensures forall k :: k in Flatten(chain) <==> HasKey(ChainVars(chain), k) && k != ProtoKey
    ensures var vars := ChainVars(chain);
            forall i :: 0 <= i < |vars| && vars[i].key != ProtoKey && (forall j :: i < j < |vars| ==> vars[j].key != vars[i].key) ==>
              vars[i].key in Flatten(chain) && Flatten(chain)[vars[i].key] == vars[i].value
  {
    var vars := ChainVars(chain);
    var entries := Present(vars);
    AssignSpec(map[], entries);
    assert Flatten(chain) == Assign(map[], entries);
    forall k ensures k in Flatten(chain) <==> HasKey(vars, k) && k != ProtoKey {
      if k in Flatten(chain) {
        assert Mentions(entries, k);
        var i :| 0 <= i < |entries| && Assigns(entries, i, k);
        assert vars[i].key == k;
      }
      if k != ProtoKey && exists i :: 0 <= i < |vars| && vars[i].key == k {
        var i :| 0 <= i < |vars| && vars[i].key == k;
        assert Assigns(entries, i, k);
      }
    }
    forall i | 0 <= i < |vars| && vars[i].key != ProtoKey && (forall j :: i < j < |vars| ==> vars[j].key != vars[i].key)
      ensures vars[i].key in Flatten(chain) && Flatten(chain)[vars[i].key] == vars[i].value
    {
      assert IsLastFor(entries, i);
    }
  }

  /**
   * A provider's var wins the flattened map when no later var of that
   * provider and no later provider sets the same key (and the key is not
   * `__proto__`, which is never stored).
   */
  lemma LaterProviderOverrides(chain: seq<ProviderConfig>, q: int, i: int)
    requires 0 <= q < |chain| && 0 <= i < |chain[q].vars|
    requires chain[q].vars[i].key != ProtoKey
    requires forall j :: i < j < |chain[q].vars| ==> chain[q].vars[j].key != chain[q].vars[i].key
    requires forall q', j :: q < q' < |chain| && 0 <= j < |chain[q'].vars| ==>
               chain[q'].vars[j].key != chain[q].vars[i].key
    ensures chain[q].vars[i].key in Flatten(chain)
    ensures Flatten(chain)[chain[q].vars[i].key] == chain[q].vars[i].value
  {
    var v := chain[q].vars[i];
    var before := ChainVars(chain[..q]);
    var after := ChainVars(chain[q + 1..]);
    assert chain == chain[..q] + ([chain[q]] + chain[q + 1..]);
    ChainVarsAppend(chain[..q], [chain[q]] + chain[q + 1..]);
    ChainVarsAppend([chain[q]], chain[q + 1..]);
    assert ChainVars([chain[q]]) == chain[q].vars;
    var vars := ChainVars(chain);
    assert vars == before + chain[q].vars + after;
    var rest := chain[q + 1..];
    forall q', j' | 0 <= q' < |rest| && 0 <= j' < |rest[q'].vars|
      ensures rest[q'].vars[j'].key != v.key
    {
      assert rest[q'] == chain[q + 1 + q'];
    }
    ChainVarsKeys(rest, v.key);
    var at := |before| + i;
    assert vars[at] == v;
    forall j | at < j < |vars| ensures vars[j].key != v.key {
      if j < |before| + |chain[q].vars| {
        assert vars[j] == chain[q].vars[j - |before|];
      } else {
        assert vars[j] == after[j - |before| - |chain[q].vars|];
      }
    }
    FlattenSpec(chain);
  }

  /** The chain `[{A=1}, {A=2}]` flattens to `A=2`: the later provider wins. */
  lemma LastProviderWinsExample()
    ensures Flatten([ProviderConfig("p1", Custom, [EnvVar("A", "1")]),
                     ProviderConfig("p2", Custom, [EnvVar("A", "2")])]) == map["A" := "2"]
  {
    var chain := [ProviderConfig("p1", Custom, [EnvVar("A", "1")]),
                  ProviderConfig("p2", Custom, [EnvVar("A", "2")])];
    assert ChainVars(chain[1..]) == [EnvVar("A", "2")];
    assert ChainVars(chain) == [EnvVar("A", "1"), EnvVar("A", "2")];
  }

  /**
   * `profileEnv`: the flattened chain when `profile.providers` is set,
   * otherwise empty; its keys are the chain's keys other than `__proto__`.
   */
  function ProfileEnv(p: DecryptedProfile): (env: Env)
    ensures p.providers.None? ==> env == map[]
    ensures p.providers.Some? ==> env == Flatten(p.providers.value)
    ensures p.providers.Some? ==>
              env.Keys == (set v | v in ChainVars(p.providers.value) && v.key != ProtoKey :: v.key)
  {
    match p.providers
    case None => map[]
    case Some(chain) =>
      FlattenSpec(chain);
      var vars := ChainVars(chain);
      assert forall v :: v in vars && v.key != ProtoKey ==> v.key in Flatten(chain) by {
        forall v | v in vars && v.key != ProtoKey ensures v.key in Flatten(chain) {
          var i :| 0 <= i < |vars| && vars[i] == v;
          assert HasKey(vars, v.key);
        }
      }
      Flatten(chain)
  }

  /** How the spawned child ended: an `error` event, or `close` with a code (`null` after a signal). */
  datatype ChildExit = StartFailed | Closed(code: Option<int>)

  /** What was handed to `spawn`. */
  datatype Invocation = Invocation(command: string, args: seq<string>, env: Env)

  /**
   * How `runCommand` ends: `process.exit(code)`, after spawning `spawned`
   * if it got that far, or with the exception `getProfile` threw.
   */
  datatype RunResult = Exited(code: int, spawned: Option<Invocation>) | Threw(error: Profiles.RepoError)

  /**
   * `runCommand(profileName, command, args)` with the inherited
   * environment `inherited`. A missing profile exits with 1 without
   * spawning; a profile that fails to decrypt propagates the exception;
   * otherwise the command is spawned once with the profile's variables
   * over the inherited ones, and the exit code is the child's code, 0 when
   * that code is null, and 1 when the child could not be started.
   */
  function RunCommand(
    store: Profiles.Store, vault: Profiles.Vault, profileName: string,
    command: string, args: seq<string>, inherited: Env, child: ChildExit): (r: RunResult)
    ensures Profiles.GetProfile(store, vault, profileName) == Ok(None) ==> r == Exited(1, None)
    ensures Profiles.GetProfile(store, vault, profileName).Err? ==>
              r == Threw(Profiles.GetProfile(store, vault, profileName).error)
    ensures r.Exited? && r.spawned.Some? <==> profileName in store && Profiles.GetProfile(store, vault, profileName).Ok?
    ensures r.Exited? && r.spawned.Some? ==>
              && var p := Profiles.GetProfile(store, vault, profileName).value.value;
              && r.spawned.value == Invocation(command, args, Overlay(inherited, ProfileEnv(p)))
              && (child == StartFailed ==> r.code == 1)
              && (child == Closed(None) ==> r.code == 0)
              && (forall c :: child == Closed(Some(c)) ==> r.code == c)
  {
    match Profiles.GetProfile(store, vault, profileName)
    case Err(e) => Threw(e)
    case Ok(None) => Exited(1, None)
    case Ok(Some(profile)) => Spawn(command, args, Overlay(inherited, ProfileEnv(profile)), child)
  }

  /** `spawn` with `stdio: 'inherit'`, then `process.exit` on the child's `error` or `close`. */
  function Spawn(command: string, args: seq<string>, env: Env, child: ChildExit): (r: RunResult)
    ensures r.Exited? && r.spawned == Some(Invocation(command, args, env))
    ensures child == StartFailed ==> r.code == 1
    ensures child == Closed(None) ==> r.code == 0
    ensures forall c :: child == Closed(Some(c)) ==> r.code == c
  {
    var code := match child
      case StartFailed => 1
      case Closed(None) => 0
      case Closed(Some(c)) => c;
    Exited(code, Some(Invocation(command, args, env)))
  }

  /**
   * As written, the child only ever sees the inherited environment:
   * `getProfile` returns the parsed payload under `env_vars`, so the
   * `providers` field the runner flattens is never present.
   */
  lemma RunInjectsNothing(
    store: Profiles.Store, vault: Profiles.Vault, profileName: string,
    command: string, args: seq<string>, inherited: Env, child: ChildExit)
    ensures var r := RunCommand(store, vault, profileName, command, args, inherited, child);
            r.Exited? && r.spawned.Some? ==> r.spawned.value.env == inherited
  {
    var r := RunCommand(store, vault, profileName, command, args, inherited, child);
    if r.Exited? && r.spawned.Some? {
      assert Overlay(inherited, map[]) == inherited;
    }
  }

  /**
   * The string members of a decrypted `env_vars` payload: what the child
   * should see when the payload is the flat `KEY: value` object that `add`
   * stores. Members that are not strings, and payloads that are not
   * objects, contribute nothing.
   */
  function PayloadEnv(payload: Json): (env: Env)
    ensures !payload.JObject? ==> env == map[]
    ensures payload.JObject? ==>
              forall k :: k in env <==> k in payload.members && payload.members[k].JString?
    ensures payload.JObject? ==>
              forall k :: k in env ==> env[k] == payload.members[k].s
  {
    match payload
    case JObject(members) => map k | k in members && members[k].JString? :: members[k].s
    case _ => map[]
  }

  /** Reading back a stored flat map gives that map. */
  lemma PayloadOfStringObject(m: Env)
    ensures PayloadEnv(StringObject(m)) == m
  {
    var members := StringObject(m).members;
    assert members.Keys == m.Keys;
    assert forall k :: k in members ==> members[k] == JString(m[k]);
  }

  /**
   * The evidently intended `runCommand`: as `RunCommand`, but the child
   * sees the decrypted `env_vars` payload laid over the inherited
   * environment.
   */
  function RunCommandIntended(
    store: Profiles.Store, vault: Profiles.Vault, profileName: string,
    command: string, args: seq<string>, inherited: Env, child: ChildExit): (r: RunResult)
    ensures Profiles.GetProfile(store, vault, profileName) == Ok(None) ==> r == Exited(1, None)
    ensures Profiles.GetProfile(store, vault, profileName).Err? ==>
              r == Threw(Profiles.GetProfile(store, vault, profileName).error)
    ensures r.Exited? && r.spawned.Some? <==> profileName in store && Profiles.GetProfile(store, vault, profileName).Ok?
    ensures r.Exited? && r.spawned.Some? ==>
              && var p := Profiles.GetProfile(store, vault, profileName).value.value;
              && r.spawned.value == Invocation(command, args, Overlay(inherited, PayloadEnv(p.envVars)))
              && (child == StartFailed ==> r.code == 1)
              && (child == Closed(None) ==> r.code == 0)
              && (forall c :: child == Closed(Some(c)) ==> r.code == c)
  {
    match Profiles.GetProfile(store, vault, profileName)
    case Err(e) => Threw(e)
    case Ok(None) => Exited(1, None)
    case Ok(Some(profile)) => Spawn(command, args, Overlay(inherited, PayloadEnv(profile.envVars)), child)
  }
}
