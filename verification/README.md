# anyAIToken core, modelled in Dafny

anyAIToken (`ais`) keeps named *profiles* of API credentials in an
encrypted SQLite table and runs commands with a profile's variables in
their environment. This project models the core of that tool as pure
Dafny functions over immutable data and proves what each operation
promises:

- **Profile repository** (`profiles.dfy`): the `profiles` table is a map
  from the unique `name` to its row. Create, get, list and delete are
  modelled with their error paths: encryption failure, duplicate name, and
  a row that fails to decrypt or parse.
- **Envelope encryption** (`encryption.dfy`): the `iv:authTag:ciphertext`
  hex envelope, Node's lenient hex decoding of all three fields
  (`Encryption.LenientIvField`), the parity check that rejects an
  odd-length ciphertext field (that field only), and the key file that is
  loaded or created once. AES-256-GCM is an abstract `Aead` record; its
  round-trip property is a hypothesis of the lemmas that need it.
- **Runner** (`runner.dfy`): flattening a provider chain into one
  environment (later entries win), overlaying it on the inherited
  environment, and mapping the child's outcome to an exit code.
- **Codex hook** (`codex_hook.dfy`): backing up and restoring
  `~/.codex/config.toml` and `~/.codex/auth.json` around a run, and the
  `OPENAI_*` defaults.
- **CLI parsing** (`cli.dfy`): `ais add`'s `KEY=VALUE` arguments and
  `ais run`'s command split.
- **Web form parsing** (`web_form.dfy`): the web form's multi-line env
  parser and the copied `ais run <name> -- ` command.
- **Provider card** (`provider_card.dfy`): presets, the type switch that
  replaces untouched vars with the new preset, and the var list edits.

Shared pieces:

- `text.dfy` gives JavaScript's `split`, `join` and `trim`.
- `envmap.dfy` gives the last-write-wins assignment loop used by the
  runner and both parsers.
- `types.dfy` holds the records of `src/types/index.ts`.
- `wrappers.dfy` holds `Option` and `Result`.

Everything the program takes from the outside world is an explicit
parameter:

- random UUIDs, IVs and key bytes;
- timestamps;
- the inherited environment;
- the child's exit;
- the files on disk.

A fresh UUID is stated as "not yet used". A 12-byte IV is stated as a
precondition.

Three behaviours of the code as written are worth knowing:

- **`ais run` injects no profile variables.** `getProfile` returns the
  stored row with its decrypted `env_vars`. The table has no `providers`
  column, so `profile.providers` is always absent. The runner therefore
  spawns the command with the inherited environment only
  (`Runner.RunInjectsNothing`). `Runner.RunCommandIntended` lays the
  decrypted payload over the inherited environment instead, and
  `Cli.AddThenRun` proves that `ais add` followed by `ais run` then gives
  the child the parsed `KEY=VALUE` arguments. See Findings.
- **`__proto__` is never stored.** Both parsers and the runner assign
  into a plain object, where `obj['__proto__'] = value` hits the
  prototype setter and adds no property. The shared assignment loop skips
  that key (`EnvMap.Step`, `Cli.ProtoKeyNeverStored`).
- **The type switch compares keys as joined strings.** It joins the keys
  with `,`, so a single var whose key is `GOOGLE_API_KEY,GOOGLE_API_BASE_URL`
  counts as an untouched Gemini preset and is replaced
  (`ProviderCard.CommaKeyCountsAsPreset`). With comma-free keys the
  comparison is exactly "same non-empty keys in the same order"
  (`ProviderCard.TypeChangeByKeys`).

## Model

| member | source | states |
|---|---|---|
| Text.JoinSplit | src/cli/index.ts:41-43 | Joining the pieces of `split(sep)` with `sep` rebuilds the original string. |
| Text.SplitJoin | src/cli/index.ts:41-43 | Splitting a join of separator-free pieces gives those pieces back. |
| Text.SplitHead | src/cli/index.ts:41 | The first piece of a split is the text before the first separator, and the rest rejoined is the text after it. A string without the separator splits into itself alone. |
| Text.SplitThree | src/core/encryption.ts:40-41 | Three `:`-free fields joined by `:` split back into those three fields. |
| Text.SplitCount | src/core/encryption.ts:40-41 | `split(':')` yields exactly one more piece than there are `:` characters. |
| Text.TrimSpec | web/src/App.tsx:44 | `trim()` returns the infix left after removing all leading and trailing whitespace. The result neither starts nor ends with whitespace. |
| EnvMap.Assign | src/core/runner.ts:14-19 | The in-order `obj[key] = value` loop, skipping absent entries and `__proto__`. `AssignSpec` and `AssignedKeys` characterise it. |
| EnvMap.AssignSpec | src/core/runner.ts:13-19 | Assigning entries in order gives a map with a key exactly when the starting map or some entry has it, other than `__proto__`. The last entry for a key wins. A key no entry mentions keeps its old value. |
| EnvMap.AssignedKeys | src/cli/index.ts:39-45 | Starting from an empty object, the keys are exactly those some entry carries, except `__proto__`. |
| EnvMap.Overlay | src/core/runner.ts:23-26 | In the spread merge, a profile variable overrides the inherited one. Every other inherited variable is kept. |
| Runner.Flatten | src/core/runner.ts:13-20 | The nested `forEach` over providers and their vars. `FlattenSpec` gives its keys and values. |
| Runner.FlattenSpec | src/core/runner.ts:12-20 | The flattened env holds exactly the keys of the chain's vars, except `__proto__`. Each key has the value of its last occurrence. |
| Runner.LaterProviderOverrides | src/core/runner.ts:14-19 | A var's value reaches the env when no later var, in its own provider or in a later provider, sets the same key. |
| Runner.LastProviderWinsExample | src/core/runner.ts:14-19 | `[{A=1}, {A=2}]` flattens to `A=2`. |
| Runner.ProfileEnv | src/core/runner.ts:13-20 | With no providers the profile env is empty. Otherwise it is the flattened chain, whose keys are exactly the chain's keys except `__proto__`. |
| Runner.RunCommand | src/core/runner.ts:4-43 | A missing profile exits with 1 without spawning. A decryption failure propagates. Otherwise the command is spawned exactly once, with the profile env over the inherited one. The exit code is the child's code, 0 for a null code, and 1 when start fails. |
| Runner.Spawn | src/core/runner.ts:29-42 | The command is spawned once, with exactly the given command, arguments and environment. The exit code is the child's code, 0 for a null code, and 1 when start fails. |
| Runner.RunInjectsNothing | src/core/runner.ts:12-26 | Because `getProfile` never yields `providers`, a spawned child's environment is exactly the inherited one. |
| Runner.PayloadEnv | src/core/profiles.ts:39-41 | The env read from a decrypted `env_vars` payload: for an object, exactly its string members with their values; anything else gives no variables. |
| Runner.PayloadOfStringObject | src/core/profiles.ts:37-41 | Reading back the string members of a stored flat map gives that map. |
| Runner.RunCommandIntended | src/core/runner.ts:4-43 | As `RunCommand`, except that the spawned environment is the decrypted payload's string members over the inherited environment. |
| CodexHook.PathsDistinct | src/core/hooks/openai.ts:5-9 | The two generated files and their two backups are four distinct paths. |
| CodexHook.BackupFile | src/core/hooks/openai.ts:60-68 | An existing file gets a backup only when none exists yet. Nothing else changes. |
| CodexHook.RestoreFile | src/core/hooks/openai.ts:70-80 | With a backup, the file gets the backup's content and the backup is removed. Without one, nothing changes. Other paths are untouched. |
| CodexHook.Setting | src/core/hooks/openai.ts:22-26 | `env[name] \|\| fallback`: a missing or empty variable gives the default. |
| CodexHook.ApiKey | src/core/hooks/openai.ts:22 | The key written to `auth.json` is `OPENAI_API_KEY`, or empty when it is missing or empty. |
| CodexHook.ExtractSettings | src/core/hooks/openai.ts:22-26 | The four `config.toml` settings, each `Setting` of its variable and default. `EmptyEnvGivesDefaults` and `SettingsReadOnlyOpenAiVars` characterise it. |
| CodexHook.EmptyEnvGivesDefaults | src/core/hooks/openai.ts:22-26 | With no variables the key is `""` and the settings are `https://api.openai.com/v1`, `gpt-5.2`, `high` and `anyProvider`. |
| CodexHook.SettingsReadOnlyOpenAiVars | src/core/hooks/openai.ts:22-26 | Two environments that agree on the five `OPENAI_*` variables give the same settings and key. |
| CodexHook.Setup | src/core/hooks/openai.ts:11-52 | Setup creates the `.codex` directory, writes `config.toml` from the four extracted settings and `auth.json` from the key. Only the four touched paths can change. |
| CodexHook.Cleanup | src/core/hooks/openai.ts:54-58 | A generated file with a backup gets the backup's content back. One without a backup is left as it is, including generated content. No backup remains, and nothing else changes. |
| CodexHook.SetupBacksUpOnce | src/core/hooks/openai.ts:17-19 | After setup, a generated file has a backup iff it or a backup existed before. An old backup is kept, and a new one holds the original. |
| CodexHook.SetupThenCleanup | src/core/hooks/openai.ts:11-58 | Setup then cleanup restores each pre-existing file. A file that did not exist keeps its generated content. No backup remains. |
| CodexHook.SetupThenCleanupRestores | src/core/hooks/openai.ts:11-58 | When both originals exist and no stale backups do, setup then cleanup is the identity on files. |
| CodexHook.SecondSetupKeepsOriginal | src/core/hooks/openai.ts:63-66 | A second setup does not overwrite the backup of the true original. |
| CodexHook.NestedRunsRestore | src/core/hooks/openai.ts:11-58 | Setup, setup, cleanup, cleanup restores every file. |
| Encryption.Hex | src/core/encryption.ts:36 | Hex encoding gives two lower-case hex digits per byte. |
| Encryption.HexRoundTrip | src/core/encryption.ts:46-47 | Decoding the hex of any bytes gives those bytes back. |
| Encryption.Encrypt | src/core/encryption.ts:27-37 | The envelope has exactly three `:`-separated fields: the IV's 24 hex digits, the tag's hex and the ciphertext's hex. |
| Encryption.Decrypt | src/core/encryption.ts:39-56 | The malformed-envelope error happens exactly when the text does not have two `:` characters. An odd-length ciphertext field fails. A three-field envelope with an even-length ciphertext field decrypts to the cipher's opening of the decoded fields whenever that opening succeeds, and every success is such an opening. |
| Encryption.HexDecode | src/core/encryption.ts:46-47 | `Buffer.from(s, 'hex')`: decodes digit pairs from the start and stops at the first pair that is not two hex digits. `HexRoundTrip` and `HexDecodeStopsAtJunk` characterise it. |
| Encryption.HexDecodeStopsAtJunk | src/core/encryption.ts:46-47 | Hex digits followed by a non-hex pair decode to the bytes of the hex digits alone. |
| Encryption.HexHasNoColon | src/core/encryption.ts:36 | A hex field never contains `:`, so the three fields of an envelope split apart again. |
| Encryption.LenientIvField | src/core/encryption.ts:40-47 | Appending `zz` to the IV field of an envelope does not change what it decrypts to. |
| Encryption.OddCiphertextRejected | src/core/encryption.ts:52 | An envelope whose ciphertext field has one extra hex digit fails to decrypt. |
| Encryption.EncryptDecrypt | src/core/encryption.ts:27-56 | With a sound cipher and a 32-byte key, decrypting an envelope gives back the plaintext. |
| Encryption.GetOrGenerateKey | src/core/encryption.ts:10-23 | The key file ends up holding the returned key. An existing file is returned unchanged. A new key is the drawn 32 bytes. No other file changes. |
| Encryption.KeyIsStable | src/core/encryption.ts:16-17 | Once created, loading the key again returns the same key whatever bytes are drawn. |
| Profiles.Seal | src/core/profiles.ts:11-12 | The stored envelope is the encryption of the JSON text of the env map. `EncryptDecrypt` and `CreateThenGet` characterise it. |
| Profiles.CreateProfile | src/core/profiles.ts:9-28 | Success happens iff encryption succeeds and the name is new. Encryption runs before the insert, so a failed encryption reports the encryption error even for a taken name. Success adds exactly one row holding the envelope. Any failure leaves the table unchanged. |
| Profiles.CreateKeepsWellFormed | src/core/db.ts:19-26 | Creating keeps `name` unique and `id` a primary key. |
| Profiles.GetProfile | src/core/profiles.ts:30-47 | The result is null exactly for an unknown name. It throws exactly when the row's envelope fails to decrypt or its plaintext fails to parse. Otherwise the row comes back with its payload parsed and no `providers`. |
| Profiles.CreateThenGet | src/core/profiles.ts:9-47 | With a sound cipher and JSON codec, getting a freshly created profile returns its fields and env map. |
| Profiles.ListProfiles | src/core/profiles.ts:49-52 | Listing gives one summary per row, each row exactly once, with the row's id, name, provider and timestamp. |
| Profiles.CreateThenDelete | src/core/profiles.ts:9-58 | Deleting a freshly created profile reports a removal and restores the previous table. The name is then not found. |
| Profiles.DeleteProfile | src/core/profiles.ts:54-58 | The result is true iff the name existed. Afterwards it is absent and all other rows are unchanged. |
| Cli.ParsePair | src/cli/index.ts:41-44 | An argument is kept iff it has an `=` after a non-empty key. The value is everything after the first `=`. |
| Cli.ParseEnvArgs | src/cli/index.ts:39-45 | The `forEach` over the `KEY=VALUE` arguments into a plain object. `ParseEnvArgsSpec` and `ProtoKeyNeverStored` characterise it. |
| Cli.ParseEnvArgsSpec | src/cli/index.ts:39-45 | The map has a key iff some accepted argument has it and it is not `__proto__`. The last such argument's value wins. |
| Cli.ProtoPairParses | src/cli/index.ts:41-44 | `__proto__=x` is an accepted pair with key `__proto__`. |
| Cli.ProtoKeyNeverStored | src/cli/index.ts:39-45 | No argument list puts `__proto__` in the map. Arguments whose accepted pairs all carry that key, such as `["__proto__=x"]`, give `{}`. |
| Cli.ParsePairKeepsLaterEquals | src/cli/index.ts:41-44 | `a=b=c` gives `a`=`b=c`. |
| Cli.ParsePairEmptyValue | src/cli/index.ts:41-44 | `KEY=` keeps an empty value. |
| Cli.ParsePairSkips | src/cli/index.ts:41-44 | `=v` and `NOEQ` are skipped. |
| Cli.AddAction | src/cli/index.ts:35-53 | A duplicate name or a failed encryption leaves the table unchanged. Otherwise exactly one row is added, holding the sealed parsed map. |
| Cli.AddThenRun | src/cli/index.ts:35-82 | After `add` with sound crypto, `run` as written spawns with the inherited environment. The intended runner spawns with the parsed arguments over it. The two differ whenever a parsed key is not inherited. |
| Cli.RunAction | src/cli/index.ts:66-82 | A missing or empty command list runs nothing. Otherwise the command is the first part and the arguments are the rest, in order. |
| WebForm.ParseLine | web/src/App.tsx:42-44 | A line is kept iff its raw key before the first `=` is non-empty. The key and the value after the first `=` are trimmed. |
| WebForm.ParseLines | web/src/App.tsx:43-45 | The `forEach` over the textarea's lines into a plain object. `ParseLinesKeys` and `ParseLinesLastWins` characterise it. |
| WebForm.ParseEnvText | web/src/App.tsx:41-45 | The textarea is split at `\n` and parsed line by line. `ParseEnvTextOfLines` and `ParseEnvTextLaterLineWins` characterise it. |
| WebForm.ParseEnvTextOfLines | web/src/App.tsx:42-45 | Newline-free lines joined by `\n` parse exactly as those lines, so the key and last-wins lemmas apply to the text. |
| WebForm.ParseEnvTextLaterLineWins | web/src/App.tsx:42-45 | `A=1\nA=2` gives `A`=`2`. |
| WebForm.ParseLinesKeys | web/src/App.tsx:42-45 | The map holds a trimmed key iff some accepted line has it and it is not `__proto__`. |
| WebForm.ParseLinesLastWins | web/src/App.tsx:42-45 | A key's value comes from the last accepted line with that key. |
| WebForm.ParseLineTrims | web/src/App.tsx:43-44 | ` A = x=y ` gives `A`=`x=y`. |
| WebForm.ParseLineBlankKey | web/src/App.tsx:43-44 | `  =v` passes the raw check and stores the empty key. `=v` is skipped. |
| WebForm.CopyCommand | web/src/App.tsx:70-73 | The copied text is `ais run `, then the name, then ` -- `. |
| WebForm.CopyCommandWords | web/src/App.tsx:70-73 | For a name without spaces, the copied text splits into `ais`, `run`, the name, `--` and an empty word. |
| ProviderCard.Preset | web/src/components/ProviderCard.tsx:11-30 | The preset var list of each provider type. `PresetKeysHaveNoComma` and `GeminiKeys` characterise it. |
| ProviderCard.NonEmptyKeys | web/src/components/ProviderCard.tsx:39 | The filtered keys are non-empty and each comes from some var. Every non-empty key is kept. |
| ProviderCard.NonEmptyKeysAppend | web/src/components/ProviderCard.tsx:39 | The filter keeps order: the keys of a concatenation are those of each part, in turn. |
| ProviderCard.NonEmptyKeysSingle | web/src/components/ProviderCard.tsx:39 | One var contributes its key exactly when the key is non-empty. |
| ProviderCard.IsDefaultOrEmpty | web/src/components/ProviderCard.tsx:39-43 | The vars are empty or their joined non-empty keys equal some preset's. `TypeChangeByKeys`, `PresetKeysCountAsPreset` and `PresetMatchHasPresetKeys` characterise it. |
| ProviderCard.HandleTypeChange | web/src/components/ProviderCard.tsx:34-52 | The id is kept and the type becomes the new one. The vars become the new preset or stay as they were, and empty vars always become the preset. |
| ProviderCard.PresetKeysHaveNoComma | web/src/components/ProviderCard.tsx:11-30 | No preset key contains `,`. |
| ProviderCard.SignatureMatchesKeys | web/src/components/ProviderCard.tsx:39-43 | For comma-free keys, equal joined signatures mean equal key lists. |
| ProviderCard.PresetSignatureMatch | web/src/components/ProviderCard.tsx:39-43 | For comma-free vars, matching a preset's signature is matching its key list. |
| ProviderCard.PresetKeysCountAsPreset | web/src/components/ProviderCard.tsx:39-43 | Comma-free vars with some preset's key list count as a preset. |
| ProviderCard.PresetMatchHasPresetKeys | web/src/components/ProviderCard.tsx:39-43 | Non-empty comma-free vars that count as a preset have some preset's key list. |
| ProviderCard.TypeChangeByKeys | web/src/components/ProviderCard.tsx:39-49 | For comma-free keys, the vars are replaced iff they are empty or their non-empty keys equal some preset's, in order. |
| ProviderCard.CommaKeyMatchesNoPreset | web/src/components/ProviderCard.tsx:11-30 | The single comma-joined key is no preset's key list. |
| ProviderCard.GeminiKeys | web/src/components/ProviderCard.tsx:12-15 | The Gemini preset's non-empty keys are its two keys, in order. |
| ProviderCard.CommaKeyCountsAsPreset | web/src/components/ProviderCard.tsx:39-43 | The comma-joined Gemini keys still count as a preset, so switching type replaces that var. |
| ProviderCard.BlankKeysCountAsPreset | web/src/components/ProviderCard.tsx:39-43 | Vars with only blank keys match the `custom` preset, so they are replaced. |
| ProviderCard.UpdateVar | web/src/components/ProviderCard.tsx:54-58 | Only the chosen field of the chosen entry changes. |
| ProviderCard.UpdateWithCurrentValue | web/src/components/ProviderCard.tsx:54-58 | Writing back a field's current value changes nothing. |
| ProviderCard.AddVar | web/src/components/ProviderCard.tsx:60-62 | One blank entry is appended after the unchanged vars. |
| ProviderCard.Without | web/src/components/ProviderCard.tsx:65 | The position filter equals the slice concatenation without `index`. Out of range, it is the identity. |
| ProviderCard.RemoveVar | web/src/components/ProviderCard.tsx:64-67 | Removal leaves one fewer entry and takes out exactly that entry's occurrence. The others keep their order. |
| ProviderCard.AddThenRemove | web/src/components/ProviderCard.tsx:60-67 | Removing the entry just added restores the provider. |

## Left out

- AES-256-GCM, JSON text and TOML text are abstract. The cipher is an `Aead` record and JSON is a `JsonCodec`. The generated `config.toml` and `auth.json` are structured contents, not their exact text.
- Randomness (`randomUUID`, `randomBytes`) and clocks become parameters. Freshness of the UUID is a precondition.
- SQLite itself is not modelled: WAL mode, the `settings` table, and `initDB` are left out. Row order of `SELECT` is unspecified, so `ListProfiles` promises no order.
- Spawning, `stdio: 'inherit'`, `process.exit` and console output are left out. The child's outcome is a `ChildExit` parameter.
- `src/core/paths.ts` and `path.join` normalisation are left out. Paths are plain concatenation of the home directory and fixed suffixes.
- The key file's mode `0o600` and the creation of `~/.anyaitoken` are left out. Only file contents are modelled.
- The HTTP server, React rendering, `axios` calls, clipboard, `alert` and `confirm` are left out, as are the `list` and `rm` CLI printers. `rm` is `DeleteProfile`.
- `website` is not modelled. The profiles table has no column for it.
- `CodexHook.Setup`: the message logged after writing is left out.
- `ProviderCard.UpdateVar` requires an index inside the list. The card only calls it with the index of a rendered entry, so JavaScript's extension of the array on an out-of-range write is not modelled.
- `Encryption.Decrypt`: the UTF-8 decoding of the plaintext is part of the abstract cipher.
- `Runner.PayloadEnv`: the payload is read as the flat `KEY: value` object that `ais add` stores. An array of providers, the shape the comment at `src/types/index.ts:24` describes, contributes no variables.
- `Runner.LaterProviderOverrides` requires the key not to be `__proto__`, because that key never reaches the flattened object.
- The code has no profile export or import with a passphrase, no default profile, no legacy-profile upgrade and no registry of per-provider hooks. Nothing in the runner calls the Codex hook.

## Findings

| source | as written | input that shows it | evidently intended | confidence | as-written member | corrected member |
|---|---|---|---|---|---|---|
| src/core/runner.ts:14 and src/core/profiles.ts:39-41 | `getProfile` returns the decrypted payload as `env_vars` and never sets `providers`, so the runner's `if (profile.providers)` never holds and the child gets only the inherited environment | `ais add p claude K=v`, then `ais run p -- env` with `K` unset in the shell: the child does not see `K` | `run` gives the child "the specified profile environment" (`src/cli/index.ts:68`): the stored variables over the inherited ones | not executed | Runner.RunInjectsNothing | Runner.RunCommandIntended, Cli.AddThenRun |
