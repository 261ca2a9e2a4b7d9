/**
 * The `add` and `run` actions of `src/cli/index.ts`: the `KEY=VALUE`
 * argument parser and the command/arguments split.
 */
module Cli {
  import opened Wrappers
  import opened Text
  import opened Types
  import opened EnvMap
  import Encryption
  import Profiles
  import Runner

  /**
   * One `KEY=VALUE` argument: `const [key, ...values] = pair.split('=')`,
   * kept when `key` is non-empty and there is at least one `=`. The key is
   * everything before the first `=`, the value everything after it (so it
   * may itself contain `=`, and `KEY=` gives the empty value).
   */
  function ParsePair(pair: string): (e: Option<EnvVar>)
    ensures e.Some? <==> '=' in pair && IndexOf(pair, '=') > 0
    ensures e.Some? ==> e.value == EnvVar(pair[..IndexOf(pair, '=')], pair[IndexOf(pair, '=') + 1..])
  {
    var parts := Split(pair, '=');
    SplitHead(pair, '=');
    if parts[0] != "" && |parts| > 1 then Some(EnvVar(parts[0], Join(parts[1..], '='))) else None
  }

  /** The parse of each argument, position by position. */
  function PairEntries(pairs: seq<string>): (entries: seq<Option<EnvVar>>)
    ensures |entries| == |pairs|
    ensures forall i :: 0 <= i < |pairs| ==> entries[i] == ParsePair(pairs[i])
  {
    seq(|pairs|, i requires 0 <= i < |pairs| => ParsePair(pairs[i]))
  }

  /** The `envVars.forEach` loop building `envMap`. */
  function ParseEnvArgs(pairs: seq<string>): Env
  {
    Assign(map[], PairEntries(pairs))
  }

  /**
   * The map holds a key exactly when some accepted argument has it and it
   * is not `__proto__`, and its value comes from the last such argument: a
   * later duplicate overwrites an earlier one.
   */
  lemma ParseEnvArgsSpec(pairs: seq<string>)
    ensures forall k :: k in ParseEnvArgs(pairs) <==>
              k != ProtoKey &&
              exists i :: 0 <= i < |pairs| && ParsePair(pairs[i]).Some? && ParsePair(pairs[i]).value.key == k
    ensures forall i ::
              (&& 0 <= i < |pairs| && ParsePair(pairs[i]).Some? && ParsePair(pairs[i]).value.key != ProtoKey
               && forall j :: i < j < |pairs| && ParsePair(pairs[j]).Some? ==>
                    ParsePair(pairs[j]).value.key != ParsePair(pairs[i]).value.key)
              ==> && ParsePair(pairs[i]).value.key in ParseEnvArgs(pairs)
                  && ParseEnvArgs(pairs)[ParsePair(pairs[i]).value.key] == ParsePair(pairs[i]).value.value
  {
    var entries := PairEntries(pairs);
    AssignSpec(map[], entries);
    forall k ensures k in ParseEnvArgs(pairs) <==>
                     k != ProtoKey &&
                     exists i :: 0 <= i < |pairs| && ParsePair(pairs[i]).Some? && ParsePair(pairs[i]).value.key == k
    {
      if k in ParseEnvArgs(pairs) {
        assert Mentions(entries, k);
        var i :| 0 <= i < |entries| && Assigns(entries, i, k);
        assert ParsePair(pairs[i]).value.key == k;
      }
      if k != ProtoKey && exists i :: 0 <= i < |pairs| && ParsePair(pairs[i]).Some? && ParsePair(pairs[i]).value.key == k {
        var i :| 0 <= i < |pairs| && ParsePair(pairs[i]).Some? && ParsePair(pairs[i]).value.key == k;
        assert Assigns(entries, i, k);
      }
    }
    forall i | && 0 <= i < |pairs| && ParsePair(pairs[i]).Some? && ParsePair(pairs[i]).value.key != ProtoKey
               && forall j :: i < j < |pairs| && ParsePair(pairs[j]).Some? ==>
                    ParsePair(pairs[j]).value.key != ParsePair(pairs[i]).value.key
      ensures ParsePair(pairs[i]).value.key in ParseEnvArgs(pairs)
      ensures ParseEnvArgs(pairs)[ParsePair(pairs[i]).value.key] == ParsePair(pairs[i]).value.value
    {
      assert IsLastFor(entries, i);
    }
  }

  /** `__proto__=x` passes the parser like any other pair... */
  lemma ProtoPairParses()
    ensures ParsePair("__proto__=x") == Some(EnvVar(ProtoKey, "x"))
  {
    var pair := ProtoKey + "=x";
    assert pair == "__proto__=x";
    assert |ProtoKey| == 9 && '=' !in ProtoKey;
    assert pair[9] == '=';
    assert IndexOf(pair, '=') == 9;
    assert pair[..9] == ProtoKey && pair[10..] == "x";
  }

  /**
   * ...but the `__proto__` key never lands in the map: arguments whose
   * accepted pairs all carry it, such as `["__proto__=x"]`, give `{}`.
   */
  lemma ProtoKeyNeverStored(pairs: seq<string>)
    ensures ProtoKey !in ParseEnvArgs(pairs)
    ensures (forall i :: 0 <= i < |pairs| && ParsePair(pairs[i]).Some? ==> ParsePair(pairs[i]).value.key == ProtoKey)
            ==> ParseEnvArgs(pairs) == map[]
  {
    ParseEnvArgsSpec(pairs);
  }

  /** `a=b=c` keeps everything after the first `=` as the value. */
  lemma ParsePairKeepsLaterEquals()
    ensures ParsePair("a=b=c") == Some(EnvVar("a", "b=c"))
  {
    assert IndexOf("a=b=c", '=') == 1;
    assert "a=b=c"[..1] == "a" && "a=b=c"[2..] == "b=c";
  }

  /** `KEY=` is kept with the empty value. */
  lemma ParsePairEmptyValue()
    ensures ParsePair("KEY=") == Some(EnvVar("KEY", ""))
  {
    assert IndexOf("KEY=", '=') == 3;
    assert "KEY="[..3] == "KEY" && "KEY="[4..] == "";
  }

  /** `=v` (empty key) and `NOEQ` (no `=`) are skipped. */
  lemma ParsePairSkips()
    ensures ParsePair("=v") == None
    ensures ParsePair("NOEQ") == None
  {
    assert IndexOf("=v", '=') == 0;
  }

  /**
   * The `add <name> <provider> [envVars...]` action: parse the arguments
   * and create the profile; a failure (a taken name, or encryption that
   * throws) is caught and reported, and leaves the store as it was.
   */
  function AddAction(
    store: Profiles.Store, vault: Profiles.Vault, name: string, provider: string, envVars: seq<string>,
    id: string, iv: Encryption.Bytes, storedAt: string, returnedAt: string): (store': Profiles.Store)
    requires |iv| == Encryption.IvLength
    requires !Profiles.IdInUse(store, id)
    ensures name in store ==> store' == store
    ensures Profiles.Seal(vault, ParseEnvArgs(envVars), iv).Err? ==> store' == store
    ensures name !in store && Profiles.Seal(vault, ParseEnvArgs(envVars), iv).Ok? ==>
              && name in store'
              && store'[name].envVars == Profiles.Seal(vault, ParseEnvArgs(envVars), iv).value
              && store' - {name} == store
  {
    Profiles.CreateProfile(store, vault, name, provider, ParseEnvArgs(envVars), id, iv, storedAt, returnedAt).1
  }

  /** The outcome of the `run <profile> [command...]` action. */
  datatype RunRequest = NoCommand | Launch(profile: string, command: string, args: seq<string>)

  /**
   * The `run` action: a missing or empty command list is reported and
   * nothing runs; otherwise the first part is the command and the rest,
   * in order, its arguments.
   */
  function RunAction(profile: string, commandParts: Option<seq<string>>): (r: RunRequest)
    ensures r.NoCommand? <==> commandParts.None? || |commandParts.value| == 0
    ensures r.Launch? ==> r.profile == profile && [r.command] + r.args == commandParts.value
  {
    match commandParts
    case None => NoCommand
    case Some(parts) =>
      if |parts| == 0 then NoCommand else Launch(profile, parts[0], parts[1..])
  }

  /**
   * `ais add <name> <provider> KEY=VALUE...` followed by `ais run <name> --
   * <command>`: as written the child sees only the inherited environment;
   * the intended runner gives it the parsed variables over the inherited
   * ones. The two differ as soon as one parsed key is not inherited.
   */
  lemma AddThenRun(
    store: Profiles.Store, vault: Profiles.Vault, name: string, provider: string, envArgs: seq<string>,
    id: string, iv: Encryption.Bytes, storedAt: string, returnedAt: string,
    command: string, args: seq<string>, inherited: Env, child: Runner.ChildExit)
    requires Encryption.RoundTrips(vault.cipher) && Profiles.CodecRoundTrips(vault.json)
    requires |vault.key| == Encryption.KeyLength && |iv| == Encryption.IvLength
    requires !Profiles.IdInUse(store, id) && name !in store
    ensures var store' := AddAction(store, vault, name, provider, envArgs, id, iv, storedAt, returnedAt);
            var written := Runner.RunCommand(store', vault, name, command, args, inherited, child);
            var intended := Runner.RunCommandIntended(store', vault, name, command, args, inherited, child);
            && written.Exited? && written.spawned == Some(Runner.Invocation(command, args, inherited))
            && intended.Exited?
            && intended.spawned == Some(Runner.Invocation(command, args, Overlay(inherited, ParseEnvArgs(envArgs))))
    ensures (exists k :: k in ParseEnvArgs(envArgs) && k !in inherited) ==>
              var store' := AddAction(store, vault, name, provider, envArgs, id, iv, storedAt, returnedAt);
              Runner.RunCommand(store', vault, name, command, args, inherited, child)
              != Runner.RunCommandIntended(store', vault, name, command, args, inherited, child)
  {
    var env := ParseEnvArgs(envArgs);
    Profiles.CreateThenGet(store, vault, name, provider, env, id, iv, storedAt, returnedAt);
    var store' := AddAction(store, vault, name, provider, envArgs, id, iv, storedAt, returnedAt);
    var p := DecryptedProfile(id, name, provider, storedAt, StringObject(env), None);
    assert Profiles.GetProfile(store', vault, name) == Ok(Some(p));
    Runner.PayloadOfStringObject(env);
    var written := Runner.RunCommand(store', vault, name, command, args, inherited, child);
    var intended := Runner.RunCommandIntended(store', vault, name, command, args, inherited, child);
    assert written.Exited? && written.spawned == Some(Runner.Invocation(command, args, Overlay(inherited, map[])));
    assert Overlay(inherited, map[]) == inherited;
    assert intended.Exited? && intended.spawned == Some(Runner.Invocation(command, args, Overlay(inherited, env)));
    if exists k :: k in env && k !in inherited {
      var k :| k in env && k !in inherited;
      assert k in Overlay(inherited, env);
      assert written.spawned != intended.spawned;
    }
  }
}
