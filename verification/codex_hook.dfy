/**
 * The OpenAI/Codex hook of `src/core/hooks/openai.ts`. The filesystem is
 * a map from path to content plus a set of directories. Setup backs up
 * `config.toml` and `auth.json` to `<file>.ais.bak` unless a backup is
 * already there, then writes generated files; cleanup moves each backup
 * back over its file.
 */
module CodexHook {
  import opened EnvMap

  type Path = string

  /** The four settings rendered into `config.toml`; the API key goes only into `auth.json`. */
  datatype CodexSettings = CodexSettings(
    baseUrl: string, model: string, reasoningEffort: string, modelProvider: string)

  /**
   * File contents: the user's own text, or one of the two generated files,
   * represented by the values they carry rather than their exact text.
   */
  datatype Content = Text(text: string) | ConfigToml(settings: CodexSettings) | AuthJson(apiKey: string)

  datatype Disk = Disk(files: map<Path, Content>, dirs: set<Path>)

  const BackupSuffix: string := ".ais.bak"

  function CodexDir(home: string): Path { home + "/.codex" }
  function ConfigPath(home: string): Path { CodexDir(home) + "/config.toml" }
  function AuthPath(home: string): Path { CodexDir(home) + "/auth.json" }
  function BackupPath(p: Path): Path { p + BackupSuffix }

  /** The only files the hook reads or writes. */
  function Touched(home: string): set<Path>
  {
    {ConfigPath(home), AuthPath(home), BackupPath(ConfigPath(home)), BackupPath(AuthPath(home))}
  }

  /** The two files the hook generates. */
  predicate Generated(home: string, p: Path)
  {
    p == ConfigPath(home) || p == AuthPath(home)
  }

  /** The four touched paths are pairwise distinct (their lengths differ). */
  lemma PathsDistinct(home: string)
    ensures |{ConfigPath(home), AuthPath(home), BackupPath(ConfigPath(home)), BackupPath(AuthPath(home))}| == 4
  {
    assert |ConfigPath(home)| == |home| + 19;
    assert |AuthPath(home)| == |home| + 17;
    assert |BackupPath(ConfigPath(home))| == |home| + 27;
    assert |BackupPath(AuthPath(home))| == |home| + 25;
  }

  /** `q` is absent from both maps, or present in both with the same content. */
  predicate Same(a: map<Path, Content>, b: map<Path, Content>, q: Path)
  {
    (q in a <==> q in b) && (q in a ==> a[q] == b[q])
  }

  /**
   * `backupFile(p)`: when `p` exists and has no backup, the backup becomes
   * a copy of it. No existing file changes (an existing backup is never
   * overwritten) and the only path that can appear is the backup.
   */
  function BackupFile(files: map<Path, Content>, p: Path): (r: map<Path, Content>)
    ensures r.Keys == files.Keys + (if p in files then {BackupPath(p)} else {})
    ensures forall q :: q in files ==> r[q] == files[q]
    ensures p in files && BackupPath(p) !in files ==> r[BackupPath(p)] == files[p]
  {
    if p in files && BackupPath(p) !in files then files[BackupPath(p) := files[p]] else files
  }

  /**
   * `restoreFile(p)`: when a backup exists, `p` gets the backup's content
   * and the backup is removed; with no backup nothing changes, including a
   * generated `p`. Paths other than `p` and its backup are never touched.
   */
  function RestoreFile(files: map<Path, Content>, p: Path): (r: map<Path, Content>)
    requires p != BackupPath(p)
    ensures BackupPath(p) !in r
    ensures BackupPath(p) in files ==> p in r && r[p] == files[BackupPath(p)]
    ensures BackupPath(p) !in files ==> r == files
    ensures forall q :: q != p && q != BackupPath(p) ==> Same(files, r, q)
  {
    var backup := BackupPath(p);
    if backup in files then (files - {backup})[p := files[backup]] else files
  }

  const DefaultBaseUrl: string := "https://api.openai.com/v1"
  const DefaultModel: string := "gpt-5.2"
  const DefaultReasoningEffort: string := "high"
  const DefaultModelProvider: string := "anyProvider"

  /** `env[name] || fallback`: the variable's value unless it is missing or empty. */
  function Setting(env: Env, name: string, fallback: string): (v: string)
    ensures name in env && env[name] != "" ==> v == env[name]
    ensures name !in env || env[name] == "" ==> v == fallback
  {
    if name in env && env[name] != "" then env[name] else fallback
  }

  /** The key written into `auth.json`, empty when the variable is missing or empty. */
  function ApiKey(env: Env): string
  {
    Setting(env, "OPENAI_API_KEY", "")
  }

  /** The four `config.toml` settings setup reads, each falling back to its default. */
  function ExtractSettings(env: Env): CodexSettings
  {
    CodexSettings(
      Setting(env, "OPENAI_BASE_URL", DefaultBaseUrl),
      Setting(env, "OPENAI_MODEL", DefaultModel),
      Setting(env, "OPENAI_REASONING_EFFORT", DefaultReasoningEffort),
      Setting(env, "OPENAI_MODEL_PROVIDER", DefaultModelProvider))
  }

  /** With no OpenAI variables at all, every setting is its default and the key is empty. */
  lemma EmptyEnvGivesDefaults()
    ensures ExtractSettings(map[]) ==
            CodexSettings(DefaultBaseUrl, DefaultModel, DefaultReasoningEffort, DefaultModelProvider)
    ensures ApiKey(map[]) == ""
  {
  }

  /** The five variables setup reads. */
  const OpenAiVars: set<string> :=
    {"OPENAI_API_KEY", "OPENAI_BASE_URL", "OPENAI_MODEL", "OPENAI_REASONING_EFFORT", "OPENAI_MODEL_PROVIDER"}

  /**
   * Only the five OpenAI variables matter: two environments that agree on
   * them give the same settings and the same key, whatever else they hold.
   */
  lemma SettingsReadOnlyOpenAiVars(env1: Env, env2: Env)
    requires forall name :: name in OpenAiVars ==> (name in env1 <==> name in env2)
    requires forall name :: name in OpenAiVars && name in env1 ==> env1[name] == env2[name]
    ensures ExtractSettings(env1) == ExtractSettings(env2)
    ensures ApiKey(env1) == ApiKey(env2)
  {
    assert "OPENAI_API_KEY" in OpenAiVars && "OPENAI_BASE_URL" in OpenAiVars && "OPENAI_MODEL" in OpenAiVars;
    assert "OPENAI_REASONING_EFFORT" in OpenAiVars && "OPENAI_MODEL_PROVIDER" in OpenAiVars;
  }

  /**
   * `openaiSetupHook(env)`: ensure the directory, back up both files,
   * write the generated config and auth files. Only the touched paths and
   * the Codex directory can change; both generated files hold the
   * extracted settings.
   */
  function Setup(disk: Disk, home: string, env: Env): (r: Disk)
    ensures r.dirs == disk.dirs + {CodexDir(home)}
    ensures r.files - Touched(home) == disk.files - Touched(home)
    ensures ConfigPath(home) in r.files && r.files[ConfigPath(home)] == ConfigToml(ExtractSettings(env))
    ensures AuthPath(home) in r.files && r.files[AuthPath(home)] == AuthJson(ApiKey(env))
  {
    PathsDistinct(home);
    var settings := ExtractSettings(env);
    var configSaved := BackupFile(disk.files, ConfigPath(home));
    var backedUp := BackupFile(configSaved, AuthPath(home));
    var configWritten := backedUp[ConfigPath(home) := ConfigToml(settings)];
    var written := configWritten[AuthPath(home) := AuthJson(ApiKey(env))];
    WriteInsideTouched(disk.files, configSaved, home);
    WriteInsideTouched(configSaved, backedUp, home);
    WriteInsideTouched(backedUp, configWritten, home);
    WriteInsideTouched(configWritten, written, home);
    Disk(written, disk.dirs + {CodexDir(home)})
  }

  /** A map that differs from another only on touched paths agrees with it outside them. */
  lemma WriteInsideTouched(before: map<Path, Content>, after: map<Path, Content>, home: string)
    requires forall q :: q !in Touched(home) ==> Same(before, after, q)
    ensures after - Touched(home) == before - Touched(home)
  {
    forall q ensures q in after - Touched(home) <==> q in before - Touched(home) {
      if q !in Touched(home) {
        assert Same(before, after, q);
      }
    }
    forall q | q in after - Touched(home) ensures (after - Touched(home))[q] == (before - Touched(home))[q] {
      assert Same(before, after, q);
    }
  }

  /**
   * `openaiCleanupHook()`: each generated file with a backup gets the
   * backup's content back, one without a backup is left as it is; no
   * backup remains and nothing else changes.
   */
  function Cleanup(disk: Disk, home: string): (r: Disk)
    ensures r.dirs == disk.dirs
    ensures r.files - Touched(home) == disk.files - Touched(home)
    ensures BackupPath(ConfigPath(home)) !in r.files && BackupPath(AuthPath(home)) !in r.files
    ensures forall p :: Generated(home, p) && BackupPath(p) in disk.files ==>
              p in r.files && r.files[p] == disk.files[BackupPath(p)]
    ensures forall p :: Generated(home, p) && BackupPath(p) !in disk.files ==> Same(r.files, disk.files, p)
  {
    PathsDistinct(home);
    Disk(RestoreFile(RestoreFile(disk.files, ConfigPath(home)), AuthPath(home)), disk.dirs)
  }

  /**
   * Setup's effect on one generated file's backup: an existing backup is
   * kept as it is; otherwise an existing file is copied into it; a file
   * that did not exist gets no backup.
   */
  lemma SetupBacksUpOnce(disk: Disk, home: string, env: Env, p: Path)
    requires Generated(home, p)
    ensures var r := Setup(disk, home, env).files;
            && (BackupPath(p) in r <==> BackupPath(p) in disk.files || p in disk.files)
            && (BackupPath(p) in disk.files ==> r[BackupPath(p)] == disk.files[BackupPath(p)])
            && (BackupPath(p) !in disk.files && p in disk.files ==> r[BackupPath(p)] == disk.files[p])
  {
    PathsDistinct(home);
  }

  /**
   * Setup followed by cleanup, starting with no stale backups: each file
   * that existed is back to its original content, a file that did not
   * exist keeps its generated content, no backup is left, and every other
   * file is as it was.
   */
  lemma SetupThenCleanup(disk: Disk, home: string, env: Env, p: Path)
    requires BackupPath(ConfigPath(home)) !in disk.files && BackupPath(AuthPath(home)) !in disk.files
    requires Generated(home, p)
    ensures var r := Cleanup(Setup(disk, home, env), home).files;
            && p in r
            && (p in disk.files ==> r[p] == disk.files[p])
            && (p !in disk.files ==> r[p] == Setup(disk, home, env).files[p])
            && BackupPath(p) !in r
            && r - Touched(home) == disk.files - Touched(home)
  {
    PathsDistinct(home);
    SetupBacksUpOnce(disk, home, env, p);
  }

  /** File maps that agree outside the touched paths and on each touched path are equal. */
  lemma EqualByTouched(a: map<Path, Content>, b: map<Path, Content>, home: string)
    requires a - Touched(home) == b - Touched(home)
    requires forall p :: p in Touched(home) ==> Same(a, b, p)
    ensures a == b
  {
    forall q ensures q in a <==> q in b
                 ensures q in a ==> a[q] == b[q]
    {
      if q in Touched(home) {
        assert Same(a, b, q);
      } else {
        assert q in a <==> q in a - Touched(home);
        assert q in b <==> q in b - Touched(home);
        if q in a {
          assert a[q] == (a - Touched(home))[q];
          assert b[q] == (b - Touched(home))[q];
        }
      }
    }
  }

  /** With both originals present and no stale backups, setup then cleanup restores every file exactly. */
  lemma SetupThenCleanupRestores(disk: Disk, home: string, env: Env)
    requires ConfigPath(home) in disk.files && AuthPath(home) in disk.files
    requires BackupPath(ConfigPath(home)) !in disk.files && BackupPath(AuthPath(home)) !in disk.files
    ensures Cleanup(Setup(disk, home, env), home).files == disk.files
  {
    SetupThenCleanup(disk, home, env, ConfigPath(home));
    SetupThenCleanup(disk, home, env, AuthPath(home));
    EqualByTouched(Cleanup(Setup(disk, home, env), home).files, disk.files, home);
  }

  /**
   * A second setup without cleanup in between does not clobber the true
   * originals: each backup still holds the content the file had before the
   * first setup.
   */
  lemma SecondSetupKeepsOriginal(disk: Disk, home: string, env1: Env, env2: Env, p: Path)
    requires BackupPath(ConfigPath(home)) !in disk.files && BackupPath(AuthPath(home)) !in disk.files
    requires Generated(home, p) && p in disk.files
    ensures var twice := Setup(Setup(disk, home, env1), home, env2).files;
            BackupPath(p) in twice && twice[BackupPath(p)] == disk.files[p]
  {
    SetupBacksUpOnce(disk, home, env1, p);
    SetupBacksUpOnce(Setup(disk, home, env1), home, env2, p);
  }

  /**
   * Two nested runs (setup, setup, cleanup, cleanup) starting from existing
   * originals and no stale backups leave every file as it was.
   */
  lemma NestedRunsRestore(disk: Disk, home: string, env1: Env, env2: Env)
    requires ConfigPath(home) in disk.files && AuthPath(home) in disk.files
    requires BackupPath(ConfigPath(home)) !in disk.files && BackupPath(AuthPath(home)) !in disk.files
    ensures Cleanup(Cleanup(Setup(Setup(disk, home, env1), home, env2), home), home).files == disk.files
  {
    var twice := Setup(Setup(disk, home, env1), home, env2);
    SecondSetupKeepsOriginal(disk, home, env1, env2, ConfigPath(home));
    SecondSetupKeepsOriginal(disk, home, env1, env2, AuthPath(home));
    var inner := Cleanup(twice, home);
    EqualByTouched(inner.files, disk.files, home);
    EqualByTouched(Cleanup(inner, home).files, inner.files, home);
  }
}
