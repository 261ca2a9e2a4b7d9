/**
 * The profile repository of `src/core/profiles.ts` over the `profiles`
 * table of `src/core/db.ts`, modelled as a map from the UNIQUE `name`
 * column to the stored row.
 */
module Profiles {
  import opened Wrappers
  import opened Types
  import Encryption

  /** The `profiles` table, keyed by name. */
  type Store = map<string, Profile>

  /** Each row sits under its own name: `name` is the table's UNIQUE key. */
  predicate Keyed(store: Store)
  {
    forall n :: n in store ==> store[n].name == n
  }

  /** The table's constraints: unique names and a unique `id` primary key. */
  predicate WellFormed(store: Store)
  {
    && Keyed(store)
    && (forall n, m :: n in store && m in store && n != m ==> store[n].id != store[m].id)
  }

  /** `JSON.stringify` of a string record and `JSON.parse`; `parse` fails (`None`) where it throws. */
  datatype JsonCodec = JsonCodec(stringify: map<string, string> -> string, parse: string -> Option<Json>)

  /** Parsing what `stringify` wrote gives back the record as a JSON object. */
  ghost predicate CodecRoundTrips(json: JsonCodec)
  {
    forall m: map<string, string> :: json.parse(json.stringify(m)) == Some(StringObject(m))
  }

  /** The collaborators the repository uses: the cipher, the master key and the JSON codec. */
  datatype Vault = Vault(cipher: Encryption.Aead, key: Encryption.Bytes, json: JsonCodec)

  /** Why a repository call throws. */
  datatype RepoError =
    | EncryptionFailed  // `encrypt` threw before the insert
    | DuplicateName     // the UNIQUE constraint on `name` rejected the insert
    | DecryptionFailed  // `getProfile`'s 'Decryption failed'

  /** `id` is already the primary key of some row. */
  predicate IdInUse(store: Store, id: string)
  {
    exists n :: n in store && store[n].id == id
  }

  /** The envelope `createProfile` stores for `envVars`. */
  function Seal(vault: Vault, envVars: map<string, string>, iv: Encryption.Bytes): Result<string, Encryption.CipherError>
    requires |iv| == Encryption.IvLength
  {
    Encryption.Encrypt(vault.cipher, vault.key, iv, vault.json.stringify(envVars))
  }

  /**
   * `createProfile(name, provider, envVars)`. The random inputs are
   * parameters: `id` from `randomUUID` (not yet used as a key), `iv` from
   * `randomBytes(12)`; `storedAt` is the table's `CURRENT_TIMESTAMP` and
   * `returnedAt` the `new Date()` the function returns. On success the
   * store gains exactly one row holding the envelope of the JSON text, and
   * the returned profile carries that same envelope; on any failure the
   * store is unchanged.
   */
  function CreateProfile(
    store: Store, vault: Vault, name: string, provider: string, envVars: map<string, string>,
    id: string, iv: Encryption.Bytes, storedAt: string, returnedAt: string)
    : (r: (Result<Profile, RepoError>, Store))
    requires |iv| == Encryption.IvLength
    requires !IdInUse(store, id)
    ensures r.0.Err? ==> r.1 == store
    ensures r.0.Ok? <==> name !in store && Seal(vault, envVars, iv).Ok?
    ensures Seal(vault, envVars, iv).Err? ==> r.0 == Err(EncryptionFailed)
    ensures name in store && Seal(vault, envVars, iv).Ok? ==> r.0 == Err(DuplicateName)
    ensures r.0.Ok? ==>
              && r.0.value == Profile(id, name, provider, Seal(vault, envVars, iv).value, returnedAt)
              && r.1 == store[name := Profile(id, name, provider, Seal(vault, envVars, iv).value, storedAt)]
  {
    match Seal(vault, envVars, iv)
    case Err(_) => (Err(EncryptionFailed), store)
    case Ok(envelope) =>
      if name in store then (Err(DuplicateName), store)
      else
        var row := Profile(id, name, provider, envelope, storedAt);
        (Ok(row.(createdAt := returnedAt)), store[name := row])
  }

  /** Creating a profile keeps the table's constraints. */
  lemma CreateKeepsWellFormed(
    store: Store, vault: Vault, name: string, provider: string, envVars: map<string, string>,
    id: string, iv: Encryption.Bytes, storedAt: string, returnedAt: string)
    requires WellFormed(store)
    requires |iv| == Encryption.IvLength
    requires !IdInUse(store, id)
    ensures WellFormed(CreateProfile(store, vault, name, provider, envVars, id, iv, storedAt, returnedAt).1)
  {
  }

  /**
   * `getProfile(name)`: `Ok(None)` (the source's `null`) exactly when no row
   * has that name; a row whose envelope does not decrypt or whose text does
   * not parse throws; otherwise the row comes back with its payload parsed.
   * The row has no `providers` column, so the result never has one.
   */
  function GetProfile(store: Store, vault: Vault, name: string): (r: Result<Option<DecryptedProfile>, RepoError>)
    ensures r == Ok(None) <==> name !in store
    ensures r.Err? ==> r.error == DecryptionFailed
    ensures r.Err? <==>
              && name in store
              && var plain := Encryption.Decrypt(vault.cipher, vault.key, store[name].envVars);
              && (plain.Err? || vault.json.parse(plain.value).None?)
    ensures r.Ok? && r.value.Some? ==>
              && name in store
              && var row := store[name];
              && var p := r.value.value;
              && p.id == row.id && p.name == row.name && p.provider == row.provider
              && p.createdAt == row.createdAt
              && p.providers == None
              && Encryption.Decrypt(vault.cipher, vault.key, row.envVars).Ok?
              && Some(p.envVars) == vault.json.parse(Encryption.Decrypt(vault.cipher, vault.key, row.envVars).value)
  {
    if name !in store then Ok(None)
    else
      var row := store[name];
      match Encryption.Decrypt(vault.cipher, vault.key, row.envVars)
      case Err(_) => Err(DecryptionFailed)
      case Ok(text) =>
        match vault.json.parse(text)
        case None => Err(DecryptionFailed)
        case Some(payload) =>
          Ok(Some(DecryptedProfile(row.id, row.name, row.provider, row.createdAt, payload, None)))
  }

  /**
   * With a sound cipher and codec and a 32-byte key, reading back a
   * freshly created profile gives the record it was created from.
   */
  lemma CreateThenGet(
    store: Store, vault: Vault, name: string, provider: string, envVars: map<string, string>,
    id: string, iv: Encryption.Bytes, storedAt: string, returnedAt: string)
    requires Encryption.RoundTrips(vault.cipher) && CodecRoundTrips(vault.json)
    requires |vault.key| == Encryption.KeyLength && |iv| == Encryption.IvLength
    requires !IdInUse(store, id) && name !in store
    ensures var (created, store') := CreateProfile(store, vault, name, provider, envVars, id, iv, storedAt, returnedAt);
            && created.Ok?
            && GetProfile(store', vault, name)
               == Ok(Some(DecryptedProfile(id, name, provider, storedAt, StringObject(envVars), None)))
  {
    Encryption.EncryptDecrypt(vault.cipher, vault.key, iv, vault.json.stringify(envVars));
  }

  /** The non-secret columns `listProfiles` selects. */
  function Summary(p: Profile): ProfileSummary
  {
    ProfileSummary(p.id, p.name, p.provider, p.createdAt)
  }

  /**
   * `rows` lists exactly the profiles named in `listed`, once each, as
   * summaries of the stored rows.
   */
  ghost predicate Lists(store: Store, rows: seq<ProfileSummary>, listed: set<string>)
  {
    && |rows| == |listed|
    && (forall i :: 0 <= i < |rows| ==>
          rows[i].name in listed && rows[i].name in store && rows[i] == Summary(store[rows[i].name]))
    && (forall n :: n in listed ==> exists i :: 0 <= i < |rows| && rows[i].name == n)
    && (forall i, j :: 0 <= i < j < |rows| ==> rows[i].name != rows[j].name)
  }

  /** Appending the summary of one more stored profile extends the listing by its name. */
  lemma ListStep(store: Store, rows: seq<ProfileSummary>, listed: set<string>, n: string)
    requires Lists(store, rows, listed)
    requires n in store && store[n].name == n && n !in listed
    ensures Lists(store, rows + [Summary(store[n])], listed + {n})
  {
    var rows' := rows + [Summary(store[n])];
    assert rows'[|rows|].name == n;
    forall m | m in listed + {n}
      ensures exists i :: 0 <= i < |rows'| && rows'[i].name == m
    {
      if m != n {
        var i :| 0 <= i < |rows| && rows[i].name == m;
        assert rows'[i].name == m;
      }
    }
  }

  /**
   * `listProfiles()`: one summary per stored row, in no particular order
   * (SQLite's), each the stored row's id, name, provider and creation
   * time; the summary type has no payload field at all.
   */
  method ListProfiles(store: Store) returns (rows: seq<ProfileSummary>)
    requires Keyed(store)
    ensures |rows| == |store|
    ensures forall i :: 0 <= i < |rows| ==> rows[i].name in store && rows[i] == Summary(store[rows[i].name])
    ensures forall n :: n in store ==> exists i :: 0 <= i < |rows| && rows[i].name == n
    ensures forall i, j :: 0 <= i < j < |rows| ==> rows[i].name != rows[j].name
  {
    rows := [];
    var pending := store.Keys;
    ghost var listed: set<string> := {};
    while pending != {}
      invariant pending <= store.Keys && listed == store.Keys - pending
      invariant Lists(store, rows, listed)
      decreases |pending|
    {
      var n :| n in pending;
      ListStep(store, rows, listed, n);
      rows := rows + [Summary(store[n])];
      pending := pending - {n};
      listed := listed + {n};
    }
    assert listed == store.Keys;
  }

  /**
   * `deleteProfile(name)`: reports whether a row was removed; afterwards
   * the name is absent and every other row is as it was.
   */
  function DeleteProfile(store: Store, name: string): (r: (bool, Store))
    ensures r.0 <==> name in store
    ensures name !in r.1
    ensures forall n :: n != name ==> (n in r.1 <==> n in store)
    ensures forall n :: n != name && n in store ==> r.1[n] == store[n]
  {
    (name in store, store - {name})
  }

  /**
   * Deleting a freshly created profile reports a removal and gives back
   * the table as it was, after which the name is no longer found.
   */
  lemma CreateThenDelete(
    store: Store, vault: Vault, name: string, provider: string, envVars: map<string, string>,
    id: string, iv: Encryption.Bytes, storedAt: string, returnedAt: string)
    requires |iv| == Encryption.IvLength
    requires !IdInUse(store, id)
    ensures var (created, store') := CreateProfile(store, vault, name, provider, envVars, id, iv, storedAt, returnedAt);
            created.Ok? ==>
              && DeleteProfile(store', name) == (true, store)
              && GetProfile(DeleteProfile(store', name).1, vault, name) == Ok(None)
  {
    var (created, store') := CreateProfile(store, vault, name, provider, envVars, id, iv, storedAt, returnedAt);
    if created.Ok? {
      assert store' - {name} == store;
    }
  }
}
