/**
 * pkg/awssecretsmanager/client.go: the Secrets Manager client's redaction policy, its
 * format-detecting secret lookup and its path compare.
 */
module AwsClient {
  import opened Wrappers
  import opened Text
  import opened Json
  import opened Diffs
  import Config
  import opened AwsApi

  /** A client of one account (reached through `role`), with the policy from the configuration. */
  datatype Client = Client(role: string, redactedKeys: seq<string>, redactSecrets: bool, redactJSONVals: bool)

  datatype ClientError = RoleMissing

  /** NewClient: an entry without a role is refused; the policy comes from the accessors. */
  function NewClient(envConfig: Config.EnvironmentConfig, configs: Config.Configs): (r: Result<Client, ClientError>)
    ensures r.Failure? <==> envConfig.role == ""
    ensures r.Success? ==>
      && r.value.role == envConfig.role
      && |r.value.redactedKeys| > 0
      && (r.value.redactSecrets <==> configs.redactSecrets != Some(false))
      && (r.value.redactJSONVals <==> configs.redactJSONValues == Some(true))
  {
    if envConfig.role == "" then Failure(RoleMissing)
    else Success(Client(envConfig.role, Config.GetRedactedKeys(configs),
                        Config.ShouldRedactSecrets(configs), Config.ShouldRedactJSONValues(configs)))
  }

  /** Some configured pattern, lower-cased, occurs in the lower-cased key. */
  ghost predicate MatchesPattern(c: Client, key: string)
  {
    exists i :: 0 <= i < |c.redactedKeys| && Contains(Lower(key), Lower(c.redactedKeys[i]))
  }

  /** isRedactedKey: every key while redaction is on; otherwise a pattern match. */
  function IsRedactedKey(c: Client, key: string): (r: bool)
    ensures c.redactSecrets ==> r
    ensures !c.redactSecrets ==> (r <==> MatchesPattern(c, key))
  {
    c.redactSecrets || MatchesAnyPattern(Lower(key), c.redactedKeys)
  }

  /** IsJSONValue: the whole string decodes as some JSON value, a bare scalar included. */
  predicate IsJSONValue(codec: Codec, s: string)
  {
    codec.parse(s).Some?
  }

  const Placeholder := "(redacted)"

  function RedactedBy(c: Client): string -> bool
  {
    k => IsRedactedKey(c, k)
  }

  /** RedactJSONValues: the member walker with "(redacted)", whatever `redactJSONVals` says. */
  function RedactJSONValues(c: Client, data: Json): Json
  {
    RedactMembers(data, RedactedBy(c), Placeholder)
  }

  /** No redacted member of the result shows anything but "(redacted)"; redacting again changes nothing. */
  lemma RedactJSONValuesHides(c: Client, data: Json)
    ensures Hides(RedactJSONValues(c, data), RedactedBy(c), Placeholder)
    ensures RedactJSONValues(c, RedactJSONValues(c, data)) == RedactJSONValues(c, data)
  {
    RedactMembersHides(data, RedactedBy(c), Placeholder);
    RedactMembersIdempotent(data, RedactedBy(c), Placeholder);
  }

  /** With redaction on, every member of an object becomes "(redacted)", keys kept. */
  lemma RedactJSONValuesBlanksObjects(c: Client, m: map<string, Json>)
    requires c.redactSecrets
    ensures RedactJSONValues(c, JObject(m)) == JObject(map k | k in m :: JString(Placeholder))
  {
    var r := RedactJSONValues(c, JObject(m));
    assert r.members == map k | k in m :: JString(Placeholder);
  }

  /**
   * TryParseAndRedactJSON: the redacted, indented re-encoding together with `true` exactly
   * when the value parses and shows some redacted member; otherwise the value itself and `false`.
   */
  function TryParseAndRedactJSON(c: Client, codec: Codec, value: string): (r: (string, bool))
    ensures r.1 <==> IsJSONValue(codec, value) && !Hides(codec.parse(value).value, RedactedBy(c), Placeholder)
    ensures r.1 ==> r.0 == codec.marshalIndent(RedactJSONValues(c, codec.parse(value).value))
    ensures !r.1 ==> r.0 == value
  {
    if !IsJSONValue(codec, value) then (value, false)
    else
      var data := codec.parse(value).value;
      var redacted := RedactJSONValues(c, data);
      RedactMembersUnchangedIff(data, RedactedBy(c), Placeholder);
      if redacted == data then (value, false)
      else (codec.marshalIndent(redacted), true)
  }

  /** The string a compare shows for a value: `%v`, then JSON member redaction when the flag is on. */
  function Shown(c: Client, codec: Codec, v: Json): string
  {
    if c.redactJSONVals then TryParseAndRedactJSON(c, codec, Render(codec, v)).0 else Render(codec, v)
  }

  // ---------------------------------------------------------------------------------------
  // GetSecret
  // ---------------------------------------------------------------------------------------

  /**
   * The format test of GetSecret: `json.Unmarshal` into a map accepts an object, and also
   * `null` (leaving the map nil, which ranges as empty); anything else is a plain string
   * held under the single key "value".
   */
  function Detect(codec: Codec, secretString: string): (r: (Doc, bool))
    ensures r.1 <==> codec.parse(secretString).Some? &&
                     (codec.parse(secretString).value.JObject? || codec.parse(secretString).value.JNull?)
    ensures r.1 && codec.parse(secretString).value.JObject? ==> r.0 == codec.parse(secretString).value.members
    ensures r.1 && codec.parse(secretString).value.JNull? ==> r.0 == map[]
    ensures !r.1 ==> r.0 == map["value" := JString(secretString)]
  {
    match codec.parse(secretString)
    case Some(JObject(m)) => (m, true)
    case Some(JNull) => (map[], true)
    case _ => (map["value" := JString(secretString)], false)
  }

  /** A plain secret is shown back exactly as stored. */
  lemma DetectPlainRoundTrip(codec: Codec, secretString: string)
    requires !Detect(codec, secretString).1
    ensures Render(codec, Detect(codec, secretString).0["value"]) == secretString
  {
  }

  datatype Fetch = Fetched(data: Doc, isJSON: bool) | NotFound | BinaryUnsupported | FetchFailed

  /**
   * GetSecret: a missing secret is "secret not found", a binary secret is refused, any
   * other read failure is a plain error; a string secret goes through the format test.
   */
  function GetSecret(codec: Codec, s: AwsState, path: string): (r: Fetch)
    ensures r.NotFound? <==> GetSecretValue(s, path).ResourceNotFound?
    ensures r.FetchFailed? <==> GetSecretValue(s, path).Denied?
    ensures r.BinaryUnsupported? <==> GetSecretValue(s, path) == Stored(SecretBinary)
    ensures r.Fetched? <==> GetSecretValue(s, path).Stored? && s.secrets[path].SecretString?
    ensures r.Fetched? ==> (r.data, r.isJSON) == Detect(codec, s.secrets[path].s)
  {
    match GetSecretValue(s, path)
    case Stored(SecretString(str)) => var d := Detect(codec, str); Fetched(d.0, d.1)
    case Stored(SecretBinary) => BinaryUnsupported
    case ResourceNotFound => NotFound
    case Denied => FetchFailed
  }

  // ---------------------------------------------------------------------------------------
  // CompareSecretPaths
  // ---------------------------------------------------------------------------------------

  /**
   * A key of either JSON document: one-sided keys are "+" or "-"; common keys whose `%v`
   * strings differ are "*", compared before redaction and shown after it; a redacted key
   * carries no diff text.
   */
  function PathsEntries(c: Client, codec: Codec, textDiff: (string, string) -> string,
                        src: Doc, tgt: Doc): (e: string -> Option<SecretDiff>)
  {
    k =>
      var redacted := IsRedactedKey(c, k);
      if k in src && k !in tgt then
        Some(SecretDiff(k, Shown(c, codec, src[k]), "", "", redacted, Added))
      else if k !in src && k in tgt then
        Some(SecretDiff(k, "", Shown(c, codec, tgt[k]), "", redacted, Removed))
      else if k !in src then None
      else if Render(codec, src[k]) == Render(codec, tgt[k]) then None
      else
        var cur := Shown(c, codec, src[k]);
        var tar := Shown(c, codec, tgt[k]);
        Some(SecretDiff(k, cur, tar, if redacted then "" else textDiff(cur, tar), redacted, Modified))
  }

  lemma PathsKeyed(c: Client, codec: Codec, textDiff: (string, string) -> string, src: Doc, tgt: Doc)
    ensures KeyedBy(PathsEntries(c, codec, textDiff, src, tgt))
  {
  }

  /** The one record two differing plain secrets give, keyed "value" and redacted with the client. */
  function PlainDiff(c: Client, textDiff: (string, string) -> string, current: string, target: string): SecretDiff
  {
    SecretDiff("value", current, target, if c.redactSecrets then "" else textDiff(current, target), c.redactSecrets, Modified)
  }

  datatype PathsError = SourceUnavailable(path: string, fetch: Fetch) | TargetUnavailable(path: string, fetch: Fetch) | FormatMismatch

  /** CompareSecretPaths: both secrets must be readable strings of the same format. */
  method CompareSecretPaths(c: Client, codec: Codec, textDiff: (string, string) -> string, s: AwsState,
                            sourcePath: string, targetPath: string)
    returns (r: Result<SecretComparison, PathsError>)
    ensures var src := GetSecret(codec, s, sourcePath);
            var tgt := GetSecret(codec, s, targetPath);
      && (!src.Fetched? ==> r == Failure(SourceUnavailable(sourcePath, src)))
      && (src.Fetched? && !tgt.Fetched? ==> r == Failure(TargetUnavailable(targetPath, tgt)))
      && (src.Fetched? && tgt.Fetched? && src.isJSON != tgt.isJSON ==> r == Failure(FormatMismatch))
      && (r.Success? <==> src.Fetched? && tgt.Fetched? && src.isJSON == tgt.isJSON)
      && (r.Success? ==> r.value.path == sourcePath)
      && (r.Success? && !src.isJSON ==>
            var cur := s.secrets[sourcePath].s;
            var tar := s.secrets[targetPath].s;
            r.value.diffs == if cur == tar then [] else [PlainDiff(c, textDiff, cur, tar)])
      && (r.Success? && src.isJSON ==>
            Realizes(r.value.diffs, src.data.Keys + tgt.data.Keys, PathsEntries(c, codec, textDiff, src.data, tgt.data)))
  {
    var source := GetSecret(codec, s, sourcePath);
    if !source.Fetched? {
      return Failure(SourceUnavailable(sourcePath, source));
    }
    var target := GetSecret(codec, s, targetPath);
    if !target.Fetched? {
      return Failure(TargetUnavailable(targetPath, target));
    }
    if source.isJSON != target.isJSON {
      return Failure(FormatMismatch);
    }

    if !source.isJSON && !target.isJSON {
      var sourceValue := Render(codec, source.data["value"]);
      var targetValue := Render(codec, target.data["value"]);
      if sourceValue == targetValue {
        return Success(SecretComparison(sourcePath, []));
      }
      return Success(SecretComparison(sourcePath, [PlainDiff(c, textDiff, sourceValue, targetValue)]));
    }

    PathsKeyed(c, codec, textDiff, source.data, target.data);
    var diffs := EmitBoth(source.data.Keys, target.data.Keys, PathsEntries(c, codec, textDiff, source.data, target.data));
    return Success(SecretComparison(sourcePath, diffs));
  }

  /** The keys CompareSecretPaths reports are exactly those added, removed, or whose `%v` strings differ. */
  lemma CompareSecretPathsReports(c: Client, codec: Codec, textDiff: (string, string) -> string,
                                  src: Doc, tgt: Doc, diffs: seq<SecretDiff>, k: string)
    requires Realizes(diffs, src.Keys + tgt.Keys, PathsEntries(c, codec, textDiff, src, tgt))
    ensures HasEntry(diffs, k) <==>
      (k in src && k !in tgt) || (k !in src && k in tgt)
      || (k in src && k in tgt && Render(codec, src[k]) != Render(codec, tgt[k]))
  {
    RealizesHasEntry(diffs, src.Keys + tgt.Keys, PathsEntries(c, codec, textDiff, src, tgt), k);
  }

  /**
   * Each record: "+" exactly for source-only keys, "-" for target-only keys; with redaction
   * on (the default) every record is redacted and none carries diff text.
   */
  lemma CompareSecretPathsRecord(c: Client, codec: Codec, textDiff: (string, string) -> string,
                                 src: Doc, tgt: Doc, diffs: seq<SecretDiff>, d: SecretDiff)
    requires Realizes(diffs, src.Keys + tgt.Keys, PathsEntries(c, codec, textDiff, src, tgt))
    requires d in diffs
    ensures d.status == Added <==> d.key in src && d.key !in tgt
    ensures d.status == Removed <==> d.key !in src && d.key in tgt
    ensures c.redactSecrets ==> d.isRedacted && d.diff == ""
  {
    PathsKeyed(c, codec, textDiff, src, tgt);
    RealizesMembers(diffs, src.Keys + tgt.Keys, PathsEntries(c, codec, textDiff, src, tgt), d);
    if c.redactSecrets {
      assert IsRedactedKey(c, d.key);
    }
  }

  /** Comparing a secret with an identical one reports nothing. */
  lemma {:induction false} CompareSecretPathsSelf(c: Client, codec: Codec, textDiff: (string, string) -> string,
                                                  doc: Doc, diffs: seq<SecretDiff>)
    requires Realizes(diffs, doc.Keys + doc.Keys, PathsEntries(c, codec, textDiff, doc, doc))
    ensures diffs == []
  {
    RealizesNothing(diffs, doc.Keys + doc.Keys, PathsEntries(c, codec, textDiff, doc, doc));
  }
}
