/**
 * pkg/vault/client.go: the Vault client's redaction policy, its secret lookup and its two
 * compare operations.
 */
module VaultClient {
  import opened Wrappers
  import opened Text
  import opened Json
  import opened Diffs
  import Config
  import opened VaultApi

  /** A client of one Vault instance, with the policy read from the configuration. */
  datatype Client = Client(
    url: string,
    env: string,
    kvEngine: string,
    redactedKeys: seq<string>,
    redactSecrets: bool,
    redactJSONVals: bool)

  /** NewClient: the address comes from the entry, the policy from the configuration accessors. */
  function NewClient(envConfig: Config.EnvironmentConfig, configs: Config.Configs, env: string, kvEngine: string): (c: Client)
    ensures c.url == envConfig.url && c.env == env && c.kvEngine == kvEngine
    ensures |c.redactedKeys| > 0
    ensures c.redactSecrets <==> configs.redactSecrets != Some(false)
    ensures c.redactJSONVals <==> configs.redactJSONValues == Some(true)
  {
    Client(envConfig.url, env, kvEngine, Config.GetRedactedKeys(configs),
           Config.ShouldRedactSecrets(configs), Config.ShouldRedactJSONValues(configs))
  }

  /** Some configured pattern, lower-cased, occurs in the lower-cased key. */
  ghost predicate MatchesPattern(c: Client, key: string)
  {
    exists i :: 0 <= i < |c.redactedKeys| && Contains(Lower(key), Lower(c.redactedKeys[i]))
  }

  /** isRedactedKey: nothing is redacted while redaction is off; otherwise a pattern match. */
  function IsRedactedKey(c: Client, key: string): (r: bool)
    ensures !c.redactSecrets ==> !r
    ensures c.redactSecrets ==> (r <==> MatchesPattern(c, key))
  {
    c.redactSecrets && MatchesAnyPattern(Lower(key), c.redactedKeys)
  }

  /** The key test ignores letter case. */
  lemma IsRedactedKeyIgnoresCase(c: Client, key: string)
    ensures IsRedactedKey(c, Lower(key)) == IsRedactedKey(c, key)
  {
    LowerIdempotent(key);
  }

  /**
   * IsJSONValue: after trimming white space the string is bracketed by `{`…`}` or `[`…`]`
   * (a single bracket is not enough).
   */
  function IsJSONValue(s: string): (r: bool)
    ensures r <==> var t := TrimSpace(s);
      |t| >= 2 && ((t[0] == '{' && t[|t| - 1] == '}') || (t[0] == '[' && t[|t| - 1] == ']'))
  {
    var t := TrimSpace(s);
    assert HasPrefix(t, "{") <==> |t| >= 1 && t[0] == '{';
    assert HasPrefix(t, "[") <==> |t| >= 1 && t[0] == '[';
    assert HasSuffix(t, "}") <==> |t| >= 1 && t[|t| - 1] == '}';
    assert HasSuffix(t, "]") <==> |t| >= 1 && t[|t| - 1] == ']';
    (HasPrefix(t, "{") && HasSuffix(t, "}")) || (HasPrefix(t, "[") && HasSuffix(t, "]"))
  }

  const Placeholder := "****"

  /** The key test RedactJSONValues applies to object members. */
  function RedactedBy(c: Client): string -> bool
  {
    k => IsRedactedKey(c, k)
  }

  /** RedactJSONValues: the identity unless JSON redaction is on; then the member walker. */
  function RedactJSONValues(c: Client, data: Json): (r: Json)
    ensures !c.redactJSONVals ==> r == data
    ensures c.redactJSONVals ==> r == RedactMembers(data, RedactedBy(c), Placeholder)
  {
    if !c.redactJSONVals then data else RedactMembers(data, RedactedBy(c), Placeholder)
  }

  /** With JSON redaction on, no redacted member of the result shows anything but "****". */
  lemma RedactJSONValuesHides(c: Client, data: Json)
    requires c.redactJSONVals
    ensures Hides(RedactJSONValues(c, data), RedactedBy(c), Placeholder)
  {
    RedactMembersHides(data, RedactedBy(c), Placeholder);
  }

  lemma RedactJSONValuesIdempotent(c: Client, data: Json)
    ensures RedactJSONValues(c, RedactJSONValues(c, data)) == RedactJSONValues(c, data)
  {
    if c.redactJSONVals { RedactMembersIdempotent(data, RedactedBy(c), Placeholder); }
  }

  /**
   * TryParseAndRedactJSON: the redacted, indented re-encoding together with `true` exactly
   * when JSON redaction is on, the value looks like JSON, parses, and shows some redacted
   * member; otherwise the value itself and `false`.
   */
  function TryParseAndRedactJSON(c: Client, codec: Codec, value: string): (r: (string, bool))
    ensures r.1 <==> c.redactJSONVals && IsJSONValue(value) && codec.parse(value).Some?
                     && !Hides(codec.parse(value).value, RedactedBy(c), Placeholder)
    ensures r.1 ==> r.0 == codec.marshalIndent(RedactJSONValues(c, codec.parse(value).value))
    ensures !r.1 ==> r.0 == value
  {
    if !c.redactJSONVals || !IsJSONValue(value) then (value, false)
    else match codec.parse(value)
      case None => (value, false)
      case Some(data) =>
        var redacted := RedactJSONValues(c, data);
        RedactMembersUnchangedIff(data, RedactedBy(c), Placeholder);
        if redacted == data then (value, false)
        else (codec.marshalIndent(redacted), true)
  }

  /** The string a compare shows for a value: `%v`, then JSON member redaction if it applies. */
  function Shown(c: Client, codec: Codec, v: Json): string
  {
    TryParseAndRedactJSON(c, codec, Render(codec, v)).0
  }

  /** What GetSecret answers for a path under the client's KV engine. */
  datatype Fetch = Fetched(data: Option<Doc>) | NotFound | EngineMissing | FetchFailed

  /**
   * GetSecret: a missing engine (mount path with its "/") is an error of its own, a missing
   * secret is "secret not found", any other read failure is a plain error.
   */
  function GetSecret(c: Client, s: VaultState, path: string): (r: Fetch)
    ensures r.EngineMissing? <==> MountPath(c.kvEngine) !in s.mounts
    ensures r.Fetched? <==> MountPath(c.kvEngine) in s.mounts && KvGet(s, At(c.kvEngine, path)).Stored?
    ensures r.Fetched? ==> r.data == s.secrets[At(c.kvEngine, path)]
    ensures r.NotFound? <==> MountPath(c.kvEngine) in s.mounts && KvGet(s, At(c.kvEngine, path)).Absent?
  {
    if MountPath(c.kvEngine) !in s.mounts then EngineMissing
    else match KvGet(s, At(c.kvEngine, path))
      case Stored(data) => Fetched(data)
      case Absent => NotFound
      case Denied => FetchFailed
  }

  /** Whatever else fails, a document absent from an existing engine is reported as not found. */
  predicate Usable(f: Fetch)
  {
    f.Fetched? || f.NotFound?
  }

  const ValidSuffixes: seq<string> := ["config", "configs", "secret", "secrets"]

  const ValidEnvironments: seq<string> := ["dev", "uat", "prod"]

  /** The membership loop with early exit that checks a suffix or an environment name. */
  method IsOneOf(x: string, options: seq<string>) returns (ok: bool)
    ensures ok <==> x in options
  {
    ok := false;
    var i := 0;
    while i < |options|
      invariant 0 <= i <= |options|
      invariant ok <==> x in options[..i]
    {
      if options[i] == x {
        ok := true;
        break;
      }
      i := i + 1;
    }
  }

  /** `fmt.Sprintf("%s/%s/%s", app, env, suffix)`. */
  function SecretPath(app: string, env: string, suffix: string): string
  {
    app + "/" + env + "/" + suffix
  }

  function MissingText(env: string): string
  {
    "Secret doesn't exist in " + env + " environment"
  }

  // ---------------------------------------------------------------------------------------
  // CompareSecrets
  // ---------------------------------------------------------------------------------------

  /**
   * A key of the only document that exists: shown after JSON redaction on its side, with
   * nothing on the other.
   */
  function OneSidedEntries(c: Client, codec: Codec, doc: Doc, status: Status): (e: string -> Option<SecretDiff>)
  {
    k =>
      if k !in doc then None
      else
        var shown := Shown(c, codec, doc[k]);
        Some(SecretDiff(k, if status == Added then shown else "", if status == Added then "" else shown,
                        "", IsRedactedKey(c, k), status))
  }

  /**
   * A key when both documents exist: one-sided keys are shown raw and counted as redacted
   * also when the suffix mentions "secret"; common keys are compared after JSON redaction and
   * only a difference gives a record, without diff text when the key is redacted.
   */
  function BothEntries(c: Client, codec: Codec, textDiff: (string, string) -> string, suffix: string,
                       src: Doc, tgt: Doc): (e: string -> Option<SecretDiff>)
  {
    k =>
      var hidden := IsRedactedKey(c, k) || Contains(suffix, "secret");
      if k in src && k !in tgt then Some(SecretDiff(k, Render(codec, src[k]), "", "", hidden, Added))
      else if k !in src && k in tgt then Some(SecretDiff(k, "", Render(codec, tgt[k]), "", hidden, Removed))
      else if k !in src then None
      else
        var cur := Shown(c, codec, src[k]);
        var tar := Shown(c, codec, tgt[k]);
        if cur == tar then None
        else
          var redacted := IsRedactedKey(c, k);
          Some(SecretDiff(k, cur, tar, if redacted then "" else textDiff(cur, tar), redacted, Modified))
  }

  lemma OneSidedKeyed(c: Client, codec: Codec, doc: Doc, status: Status)
    ensures KeyedBy(OneSidedEntries(c, codec, doc, status))
  {
  }

  lemma BothKeyed(c: Client, codec: Codec, textDiff: (string, string) -> string, suffix: string, src: Doc, tgt: Doc)
    ensures KeyedBy(BothEntries(c, codec, textDiff, suffix, src, tgt))
  {
  }

  datatype CompareError =
    | InvalidSuffix(suffix: string)
    | CurrentUnavailable(path: string)
    | TargetUnavailable(path: string)
    | MissingInBoth(suffix: string, env: string, targetEnv: string)

  /**
   * CompareSecrets: compares `app/<client env>/suffix` with `app/<targetEnv>/suffix` in the
   * client's own instance.
   */
  method CompareSecrets(c: Client, codec: Codec, textDiff: (string, string) -> string, s: VaultState,
                        appName: string, targetEnv: string, pathSuffix: string)
    returns (r: Result<SecretComparison, CompareError>)
    ensures pathSuffix !in ValidSuffixes ==> r == Failure(InvalidSuffix(pathSuffix))
    ensures pathSuffix in ValidSuffixes ==>
      var currentPath := SecretPath(appName, c.env, pathSuffix);
      var targetPath := SecretPath(appName, targetEnv, pathSuffix);
      var cur := GetSecret(c, s, currentPath);
      var tgt := GetSecret(c, s, targetPath);
      && (r.Success? <==> Usable(cur) && Usable(tgt) && !(cur.NotFound? && tgt.NotFound?))
      && (Usable(cur) && Usable(tgt) && cur.NotFound? && tgt.NotFound? ==>
            r == Failure(MissingInBoth(pathSuffix, c.env, targetEnv)))
      && (r.Success? && cur.NotFound? ==>
            && r.value.path == targetPath
            && |r.value.diffs| >= 1
            && r.value.diffs[0] == Info(MissingText(c.env), "", Removed)
            && Realizes(r.value.diffs[1..], Entries(tgt.data).Keys, OneSidedEntries(c, codec, Entries(tgt.data), Removed)))
      && (r.Success? && tgt.NotFound? ==>
            && r.value.path == currentPath
            && |r.value.diffs| >= 1
            && r.value.diffs[0] == Info("", MissingText(targetEnv), Added)
            && Realizes(r.value.diffs[1..], Entries(cur.data).Keys, OneSidedEntries(c, codec, Entries(cur.data), Added)))
      && (r.Success? && cur.Fetched? && tgt.Fetched? ==>
            && r.value.path == currentPath
            && Realizes(r.value.diffs, Entries(cur.data).Keys + Entries(tgt.data).Keys,
                        BothEntries(c, codec, textDiff, pathSuffix, Entries(cur.data), Entries(tgt.data))))
  {
    var valid := IsOneOf(pathSuffix, ValidSuffixes);
    if !valid {
      return Failure(InvalidSuffix(pathSuffix));
    }
    var currentPath := SecretPath(appName, c.env, pathSuffix);
    var targetPath := SecretPath(appName, targetEnv, pathSuffix);

    var cur := GetSecret(c, s, currentPath);
    if !Usable(cur) {
      return Failure(CurrentUnavailable(currentPath));
    }
    var tgt := GetSecret(c, s, targetPath);
    if !Usable(tgt) {
      return Failure(TargetUnavailable(targetPath));
    }
    if cur.NotFound? && tgt.NotFound? {
      return Failure(MissingInBoth(pathSuffix, c.env, targetEnv));
    }

    if cur.NotFound? {
      var doc := Entries(tgt.data);
      OneSidedKeyed(c, codec, doc, Removed);
      var diffs := EmitAfter(Info(MissingText(c.env), "", Removed), doc.Keys, OneSidedEntries(c, codec, doc, Removed));
      return Success(SecretComparison(targetPath, diffs));
    }

    if tgt.NotFound? {
      var doc := Entries(cur.data);
      OneSidedKeyed(c, codec, doc, Added);
      var diffs := EmitAfter(Info("", MissingText(targetEnv), Added), doc.Keys, OneSidedEntries(c, codec, doc, Added));
      return Success(SecretComparison(currentPath, diffs));
    }

    var src, dst := Entries(cur.data), Entries(tgt.data);
    BothKeyed(c, codec, textDiff, pathSuffix, src, dst);
    var diffs := EmitBoth(src.Keys, dst.Keys, BothEntries(c, codec, textDiff, pathSuffix, src, dst));
    return Success(SecretComparison(currentPath, diffs));
  }

  /**
   * When both documents exist, a key gets a record exactly when it is on one side only or its
   * shown values differ; "+" marks the source-only keys, "-" the target-only keys, and a
   * redacted key never carries diff text.
   */
  lemma BothEntriesClassify(c: Client, codec: Codec, textDiff: (string, string) -> string, suffix: string,
                            src: Doc, tgt: Doc, k: string)
    requires k in src || k in tgt
    ensures var e := BothEntries(c, codec, textDiff, suffix, src, tgt)(k);
      && (e.None? <==> k in src && k in tgt && Shown(c, codec, src[k]) == Shown(c, codec, tgt[k]))
      && (e.Some? ==> (e.value.status == Added <==> k !in tgt) && (e.value.status == Removed <==> k !in src))
      && (e.Some? && IsRedactedKey(c, k) ==> e.value.isRedacted && e.value.diff == "")
  {
  }

  /** Comparing a document with itself reports nothing. */
  lemma {:induction false} BothEntriesSelf(c: Client, codec: Codec, textDiff: (string, string) -> string, suffix: string,
                                           doc: Doc, diffs: seq<SecretDiff>)
    requires Realizes(diffs, doc.Keys + doc.Keys, BothEntries(c, codec, textDiff, suffix, doc, doc))
    ensures diffs == []
  {
    RealizesNothing(diffs, doc.Keys + doc.Keys, BothEntries(c, codec, textDiff, suffix, doc, doc));
  }

  /** Swapping the two documents swaps "+" and "-" and the two shown values (diff text aside). */
  lemma BothEntriesMirror(c: Client, codec: Codec, textDiff: (string, string) -> string, suffix: string,
                          src: Doc, tgt: Doc, k: string)
    ensures var e := BothEntries(c, codec, textDiff, suffix, src, tgt)(k);
            var m := BothEntries(c, codec, textDiff, suffix, tgt, src)(k);
      e.Some? == m.Some? && (e.Some? ==> m.value == Mirror(e.value).(diff := m.value.diff))
  {
  }

  // ---------------------------------------------------------------------------------------
  // CompareSecretPaths
  // ---------------------------------------------------------------------------------------

  /** A value of a redacted key goes through JSON member redaction; any other is shown raw. */
  function ShownIfRedacted(c: Client, codec: Codec, redacted: bool, v: Json): string
  {
    if redacted && c.redactJSONVals then Shown(c, codec, v) else Render(codec, v)
  }

  /**
   * A key of either document: one-sided keys are "+" or "-", common keys whose `%v` strings
   * differ are "*" (compared before any redaction), redacted keys carry no diff text.
   */
  function PathsEntries(c: Client, codec: Codec, textDiff: (string, string) -> string,
                        src: Doc, tgt: Doc): (e: string -> Option<SecretDiff>)
  {
    k =>
      var redacted := IsRedactedKey(c, k);
      if k in src && k !in tgt then
        Some(SecretDiff(k, ShownIfRedacted(c, codec, redacted, src[k]), "", "", redacted, Added))
      else if k !in src && k in tgt then
        Some(SecretDiff(k, "", ShownIfRedacted(c, codec, redacted, tgt[k]), "", redacted, Removed))
      else if k !in src then None
      else if Render(codec, src[k]) == Render(codec, tgt[k]) then None
      else
        var cur := ShownIfRedacted(c, codec, redacted, src[k]);
        var tar := ShownIfRedacted(c, codec, redacted, tgt[k]);
        Some(SecretDiff(k, cur, tar, if redacted then "" else textDiff(cur, tar), redacted, Modified))
  }

  lemma PathsKeyed(c: Client, codec: Codec, textDiff: (string, string) -> string, src: Doc, tgt: Doc)
    ensures KeyedBy(PathsEntries(c, codec, textDiff, src, tgt))
  {
  }

  datatype PathsError = SourceUnavailable(path: string, fetch: Fetch) | TargetPathUnavailable(path: string, fetch: Fetch)

  /**
   * CompareSecretPaths: both paths must be readable (a missing secret is an error here);
   * the result lists one record per key that was added, removed or changed.
   */
  method CompareSecretPaths(c: Client, codec: Codec, textDiff: (string, string) -> string, s: VaultState,
                            sourcePath: string, targetPath: string)
    returns (r: Result<SecretComparison, PathsError>)
    ensures var cur := GetSecret(c, s, sourcePath);
            var tgt := GetSecret(c, s, targetPath);
      && (!cur.Fetched? ==> r == Failure(SourceUnavailable(sourcePath, cur)))
      && (cur.Fetched? && !tgt.Fetched? ==> r == Failure(TargetPathUnavailable(targetPath, tgt)))
      && (cur.Fetched? && tgt.Fetched? ==>
            && r.Success? && r.value.path == sourcePath
            && Realizes(r.value.diffs, Entries(cur.data).Keys + Entries(tgt.data).Keys,
                        PathsEntries(c, codec, textDiff, Entries(cur.data), Entries(tgt.data))))
  {
    var cur := GetSecret(c, s, sourcePath);
    if !cur.Fetched? {
      return Failure(SourceUnavailable(sourcePath, cur));
    }
    var tgt := GetSecret(c, s, targetPath);
    if !tgt.Fetched? {
      return Failure(TargetPathUnavailable(targetPath, tgt));
    }
    var src, dst := Entries(cur.data), Entries(tgt.data);
    PathsKeyed(c, codec, textDiff, src, dst);
    var diffs := EmitBoth(src.Keys, dst.Keys, PathsEntries(c, codec, textDiff, src, dst));
    return Success(SecretComparison(sourcePath, diffs));
  }

  /** The keys CompareSecretPaths reports are exactly those added, removed, or whose `%v` strings differ. */
  lemma CompareSecretPathsReports(c: Client, codec: Codec, textDiff: (string, string) -> string,
                                  src: Doc, tgt: Doc, diffs: seq<SecretDiff>, k: string)
    requires Realizes(diffs, src.Keys + tgt.Keys, PathsEntries(c, codec, textDiff, src, tgt))
    ensures HasEntry(diffs, k) <==>
      (k in src && k !in tgt) || (k !in src && k in tgt)
      || (k in src && k in tgt && Render(codec, src[k]) != Render(codec, tgt[k]))
  {
    RealizesHasEntry(diffs, src.Keys + tgt.Keys, PathsEntries(c, codec, textDiff, src, tgt), k);
  }

  /** Each record of CompareSecretPaths: a redacted key has no diff text, "+" means source-only. */
  lemma CompareSecretPathsRecord(c: Client, codec: Codec, textDiff: (string, string) -> string,
                                 src: Doc, tgt: Doc, diffs: seq<SecretDiff>, d: SecretDiff)
    requires Realizes(diffs, src.Keys + tgt.Keys, PathsEntries(c, codec, textDiff, src, tgt))
    requires d in diffs
    ensures IsRedactedKey(c, d.key) ==> d.isRedacted && d.diff == ""
    ensures d.status == Added <==> d.key in src && d.key !in tgt
    ensures d.status == Removed <==> d.key !in src && d.key in tgt
  {
    PathsKeyed(c, codec, textDiff, src, tgt);
    RealizesMembers(diffs, src.Keys + tgt.Keys, PathsEntries(c, codec, textDiff, src, tgt), d);
  }

  /** Comparing a path with an identical document reports nothing. */
  lemma {:induction false} CompareSecretPathsSelf(c: Client, codec: Codec, textDiff: (string, string) -> string,
                                                  doc: Doc, diffs: seq<SecretDiff>)
    requires Realizes(diffs, doc.Keys + doc.Keys, PathsEntries(c, codec, textDiff, doc, doc))
    ensures diffs == []
  {
    RealizesNothing(diffs, doc.Keys + doc.Keys, PathsEntries(c, codec, textDiff, doc, doc));
  }

  /** Swapping source and target swaps "+" and "-" and the two shown values (diff text aside). */
  lemma PathsEntriesMirror(c: Client, codec: Codec, textDiff: (string, string) -> string, src: Doc, tgt: Doc, k: string)
    ensures var e := PathsEntries(c, codec, textDiff, src, tgt)(k);
            var m := PathsEntries(c, codec, textDiff, tgt, src)(k);
      e.Some? == m.Some? && (e.Some? ==> m.value == Mirror(e.value).(diff := m.value.diff))
  {
  }
}
