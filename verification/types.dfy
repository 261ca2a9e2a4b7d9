/** The shared data model of `src/types/index.ts`. */
module Types {
  import opened Wrappers

  /** One `KEY=VALUE` environment variable of a provider. */
  datatype EnvVar = EnvVar(key: string, value: string)

  /** The closed set of provider kinds (`'gemini' | 'claude' | 'openai' | 'custom'`). */
  datatype ProviderType = Gemini | Claude | OpenAI | Custom

  /** One provider of a chain; `kind` is the source's `type` field. */
  datatype ProviderConfig = ProviderConfig(id: string, kind: ProviderType, vars: seq<EnvVar>)

  /**
   * A stored profile row. `envVars` is the encrypted envelope text, never
   * plaintext; `provider` is an informational tag.
   */
  datatype Profile = Profile(id: string, name: string, provider: string, envVars: string, createdAt: string)

  /** What listing returns: a profile without its `env_vars` column. */
  datatype ProfileSummary = ProfileSummary(id: string, name: string, provider: string, createdAt: string)

  /** A value produced by `JSON.parse`. Numbers keep their literal text. */
  datatype Json =
    | JNull
    | JBool(b: bool)
    | JNumber(literal: string)
    | JString(s: string)
    | JArray(items: seq<Json>)
    | JObject(members: map<string, Json>)

  /** The JSON object that `JSON.stringify` of a string record denotes. */
  function StringObject(m: map<string, string>): Json
  {
    JObject(map k | k in m :: JString(m[k]))
  }

  /**
   * What `getProfile` returns: the row with `env_vars` replaced by the
   * parsed payload. `providers` is the field the runner reads; it is
   * `None` whenever the object lacks it.
   */
  datatype DecryptedProfile = DecryptedProfile(
    id: string,
    name: string,
    provider: string,
    createdAt: string,
    envVars: Json,
    providers: Option<seq<ProviderConfig>>)
}
