/**
 * The part of a Vault server the program touches through the Go client library
 * (`Sys().ListMounts`, `Sys().Mount`, `KVv2(mount).Get` and `.Put`), as a value.
 *
 * A KV v2 secret is stored under its mount and path; its `Data` may be nil (None), which
 * ranging treats as an empty map. Reads and writes that fail for reasons other than a
 * missing secret (permissions, network) are given by two sets of locations.
 */
module VaultApi {
  import opened Wrappers
  import opened Text
  import opened Json

  /** A mount path as ListMounts reports it: with exactly one trailing "/" added if missing. */
  function MountPath(engine: string): (r: string)
    ensures HasSuffix(r, "/")
    ensures HasSuffix(engine, "/") ==> r == engine
    ensures !HasSuffix(engine, "/") ==> r == engine + "/"
  {
    if HasSuffix(engine, "/") then engine else engine + "/"
  }

  lemma MountPathIdempotent(engine: string)
    ensures MountPath(MountPath(engine)) == MountPath(engine)
  {
  }

  /** A KV location: the mount path (with its "/") and the secret path inside it. */
  datatype Location = Location(mount: string, path: string)

  function At(engine: string, path: string): Location
  {
    Location(MountPath(engine), path)
  }

  datatype VaultState = VaultState(
    mounts: set<string>,
    secrets: map<Location, Option<Doc>>,
    unreadable: set<Location>,
    unwritable: set<Location>)

  /** The document of a secret: a nil `Data` ranges like an empty map. */
  function Entries(data: Option<Doc>): (d: Doc)
    ensures data.Some? ==> d == data.value
    ensures data.None? ==> d == map[]
  {
    if data.Some? then data.value else map[]
  }

  /** What `KVv2(mount).Get` can answer, once the mount is known to exist. */
  datatype KvRead = Stored(data: Option<Doc>) | Absent | Denied

  function KvGet(s: VaultState, loc: Location): (r: KvRead)
    ensures r.Denied? <==> loc in s.unreadable
    ensures r.Stored? <==> loc !in s.unreadable && loc in s.secrets
    ensures r.Stored? ==> r.data == s.secrets[loc]
  {
    if loc in s.unreadable then Denied
    else if loc in s.secrets then Stored(s.secrets[loc])
    else Absent
  }

  /** `KVv2(mount).Put`: fails on a missing mount or a location the token may not write. */
  function KvPut(s: VaultState, loc: Location, doc: Doc): (r: Option<VaultState>)
    ensures r.Some? <==> loc.mount in s.mounts && loc !in s.unwritable
    ensures r.Some? ==> r.value == s.(secrets := s.secrets[loc := Some(doc)])
  {
    if loc.mount in s.mounts && loc !in s.unwritable then Some(s.(secrets := s.secrets[loc := Some(doc)]))
    else None
  }

  /** A successful write is what the next read of that location returns. */
  lemma KvPutThenGet(s: VaultState, loc: Location, doc: Doc)
    requires KvPut(s, loc, doc).Some?
    requires loc !in s.unreadable
    ensures KvGet(KvPut(s, loc, doc).value, loc) == Stored(Some(doc))
  {
  }

  /** `Sys().Mount(path, kv v2)`. */
  function Mount(s: VaultState, mount: string): (r: VaultState)
    ensures r.mounts == s.mounts + {mount}
    ensures r.secrets == s.secrets
  {
    s.(mounts := s.mounts + {mount})
  }
}
