/**
 * pkg/comparison/cross_store_compare.go: comparing a secret held in Vault with one held in
 * AWS Secrets Manager (either way round), with the redaction policy read straight from the
 * configuration rather than from a client.
 */
module CrossStoreCompare {
  import opened Wrappers
  import opened Text
  import opened Json
  import opened Diffs
  import Config
  import opened VaultApi
  import opened AwsApi
  import VaultClient
  import AwsClient

  const Placeholder := "(redacted)"

  // ---------------------------------------------------------------------------------------
  // The redaction policy of this file
  // ---------------------------------------------------------------------------------------

  /** shouldRedact: every key while redaction is on; otherwise a lower-cased pattern occurs in the lower-cased key. */
  function ShouldRedact(configs: Config.Configs, key: string): (r: bool)
    ensures Config.ShouldRedactSecrets(configs) ==> r
    ensures !Config.ShouldRedactSecrets(configs) ==>
      (r <==> exists i :: 0 <= i < |Config.GetRedactedKeys(configs)| &&
                          Contains(Lower(key), Lower(Config.GetRedactedKeys(configs)[i])))
  {
    Config.ShouldRedactSecrets(configs) || MatchesAnyPattern(Lower(key), Config.GetRedactedKeys(configs))
  }

  /** The policy is the one an AWS client built from the same configuration applies. */
  lemma ShouldRedactAgreesWithAwsClient(configs: Config.Configs, envConfig: Config.EnvironmentConfig, key: string)
    requires AwsClient.NewClient(envConfig, configs).Success?
    ensures ShouldRedact(configs, key) == AwsClient.IsRedactedKey(AwsClient.NewClient(envConfig, configs).value, key)
  {
  }

  function RedactedBy(configs: Config.Configs): string -> bool
  {
    k => ShouldRedact(configs, k)
  }

  /** redactJSONValues: the member walker with "(redacted)". */
  function RedactJSONValues(configs: Config.Configs, data: Json): Json
  {
    RedactMembers(data, RedactedBy(configs), Placeholder)
  }

  /**
   * The redaction is the AWS client's: for a client built from the same configuration it
   * gives the same value, so `AwsClient.RedactJSONValuesHides` holds of it as well.
   */
  lemma RedactJSONValuesAgreesWithAwsClient(configs: Config.Configs, envConfig: Config.EnvironmentConfig, data: Json)
    requires AwsClient.NewClient(envConfig, configs).Success?
    ensures RedactJSONValues(configs, data) == AwsClient.RedactJSONValues(AwsClient.NewClient(envConfig, configs).value, data)
  {
    var c := AwsClient.NewClient(envConfig, configs).value;
    forall k ensures RedactedBy(configs)(k) == AwsClient.RedactedBy(c)(k) {
      ShouldRedactAgreesWithAwsClient(configs, envConfig, k);
    }
    RedactMembersSamePolicy(data, RedactedBy(configs), AwsClient.RedactedBy(c), Placeholder);
  }

  /**
   * tryParseAndRedactJSON: unlike the clients' version, a value that parses is always
   * re-encoded (indented) and reported as JSON, whether or not anything was redacted.
   */
  function TryParseAndRedactJSON(configs: Config.Configs, codec: Codec, value: string): (r: (string, bool))
    ensures r.1 <==> codec.parse(value).Some?
    ensures r.1 ==> r.0 == codec.marshalIndent(RedactJSONValues(configs, codec.parse(value).value))
    ensures !r.1 ==> r.0 == value
  {
    match codec.parse(value)
    case Some(data) => (codec.marshalIndent(RedactJSONValues(configs, data)), true)
    case None => (value, false)
  }

  /**
   * A value that parses is re-indented and reported as JSON even when it has nothing to
   * redact (the clients' TryParseAndRedactJSON leaves such a value alone).
   */
  lemma TryParseReindentsUnredacted(configs: Config.Configs, codec: Codec, value: string)
    requires codec.parse(value).Some?
    requires Hides(codec.parse(value).value, RedactedBy(configs), Placeholder)
    ensures TryParseAndRedactJSON(configs, codec, value) == (codec.marshalIndent(codec.parse(value).value), true)
  {
    RedactMembersUnchangedIff(codec.parse(value).value, RedactedBy(configs), Placeholder);
  }

  /**
   * The same value side by side: where nothing needs redacting, this version re-indents it
   * and reports JSON, while the AWS client's returns it unchanged and reports no JSON.
   */
  lemma TryParseDiffersFromAwsClient(configs: Config.Configs, envConfig: Config.EnvironmentConfig, codec: Codec,
                                     value: string)
    requires AwsClient.NewClient(envConfig, configs).Success?
    requires codec.parse(value).Some?
    requires Hides(codec.parse(value).value, RedactedBy(configs), Placeholder)
    ensures TryParseAndRedactJSON(configs, codec, value) == (codec.marshalIndent(codec.parse(value).value), true)
    ensures AwsClient.TryParseAndRedactJSON(AwsClient.NewClient(envConfig, configs).value, codec, value) == (value, false)
  {
    var c := AwsClient.NewClient(envConfig, configs).value;
    var data := codec.parse(value).value;
    TryParseReindentsUnredacted(configs, codec, value);
    RedactMembersUnchangedIff(data, RedactedBy(configs), Placeholder);
    RedactJSONValuesAgreesWithAwsClient(configs, envConfig, data);
    assert AwsClient.RedactJSONValues(c, data) == data;
    RedactMembersUnchangedIff(data, AwsClient.RedactedBy(c), AwsClient.Placeholder);
  }

  /** The string the comparison shows for a value: `%v`, then JSON redaction when the flag is on. */
  function Shown(configs: Config.Configs, codec: Codec, v: Json): (r: string)
    ensures !Config.ShouldRedactJSONValues(configs) ==> r == Render(codec, v)
    ensures Config.ShouldRedactJSONValues(configs) && codec.parse(Render(codec, v)).Some? ==>
      r == codec.marshalIndent(RedactJSONValues(configs, codec.parse(Render(codec, v)).value))
    ensures codec.parse(Render(codec, v)).None? ==> r == Render(codec, v)
  {
    if Config.ShouldRedactJSONValues(configs) then TryParseAndRedactJSON(configs, codec, Render(codec, v)).0
    else Render(codec, v)
  }

  // ---------------------------------------------------------------------------------------
  // Reading one side
  // ---------------------------------------------------------------------------------------

  /** A side that could be read: its document, or nothing ("secret not found"). */
  datatype Side = Present(doc: Doc) | Missing

  /** Why a side could not be read: no AWS client (no role), a read error, or a plain-text AWS secret. */
  datatype ReadError = NoClient | ReadFailed | PlainSecret

  /**
   * One side of the comparison, read through a client of its own store kind: a Vault entry
   * through a Vault client for `env` and `kvEngine`, any other entry through an AWS client.
   * Only "secret not found" counts as a missing side; an AWS secret must be JSON.
   */
  function ReadSide(configs: Config.Configs, codec: Codec, entry: Config.EnvironmentConfig, env: string, kvEngine: string,
                    vault: VaultState, aws: AwsState, path: string): (r: Result<Side, ReadError>)
    ensures entry.store == Config.VaultStore ==>
      var f := VaultClient.GetSecret(VaultClient.NewClient(entry, configs, env, kvEngine), vault, path);
      && (r == Success(Missing) <==> f.NotFound?)
      && (r.Success? && r.value.Present? <==> f.Fetched?)
      && (f.Fetched? ==> r.value.doc == Entries(f.data))
      && (r.Failure? ==> r.error == ReadFailed)
    ensures entry.store != Config.VaultStore ==>
      var f := AwsClient.GetSecret(codec, aws, path);
      && (r == Failure(NoClient) <==> entry.role == "")
      && (entry.role != "" ==>
            && (r == Success(Missing) <==> f.NotFound?)
            && (r == Failure(PlainSecret) <==> f.Fetched? && !f.isJSON)
            && (r.Success? && r.value.Present? <==> f.Fetched? && f.isJSON)
            && (r.Success? && r.value.Present? ==> r.value.doc == f.data))
  {
    if entry.store == Config.VaultStore then
      match VaultClient.GetSecret(VaultClient.NewClient(entry, configs, env, kvEngine), vault, path)
      case Fetched(data) => Success(Present(Entries(data)))
      case NotFound => Success(Missing)
      case _ => Failure(ReadFailed)
    else if AwsClient.NewClient(entry, configs).Failure? then Failure(NoClient)
    else
      match AwsClient.GetSecret(codec, aws, path)
      case Fetched(data, isJSON) => if isJSON then Success(Present(data)) else Failure(PlainSecret)
      case NotFound => Success(Missing)
      case _ => Failure(ReadFailed)
  }

  function DocOf(side: Side): Doc
  {
    if side.Present? then side.doc else map[]
  }

  // ---------------------------------------------------------------------------------------
  // CompareVaultWithAWS
  // ---------------------------------------------------------------------------------------

  /** The store pairs the comparison accepts: one Vault side and one AWS side. */
  predicate SupportedPair(sourceStore: string, targetStore: string)
  {
    (sourceStore == Config.VaultStore && targetStore == Config.AwsStore) ||
    (sourceStore == Config.AwsStore && targetStore == Config.VaultStore)
  }

  datatype CrossStoreComparisonResult = CrossStoreComparisonResult(
    sourcePath: string,
    targetPath: string,
    sourceEnv: string,
    targetEnv: string,
    sourceInstance: string,
    targetInstance: string,
    sourceStoreType: string,
    targetStoreType: string,
    comparisons: seq<SecretComparison>,
    missingInSource: seq<string>,
    missingInTarget: seq<string>)

  datatype CrossError =
    | SourceConfig(err: Config.ConfigError)
    | TargetConfig(err: Config.ConfigError)
    | StorePair(sourceStore: string, targetStore: string)
    | SourceRead(why: ReadError)
    | TargetRead(why: ReadError)
    | AbsentInBoth(sourcePath: string, targetPath: string)

  /**
   * A key of the two documents (a missing side counts as empty): one-sided keys are "+" or
   * "-"; common keys are "*" when their shown strings differ, so that values differing only
   * in redacted JSON members are not reported; a redacted key carries no diff text.
   */
  function CrossEntries(configs: Config.Configs, codec: Codec, textDiff: (string, string) -> string,
                        src: Doc, tgt: Doc): (e: string -> Option<SecretDiff>)
  {
    k =>
      var redacted := ShouldRedact(configs, k);
      if k in src && k !in tgt then Some(SecretDiff(k, Shown(configs, codec, src[k]), "", "", redacted, Added))
      else if k !in src && k in tgt then Some(SecretDiff(k, "", Shown(configs, codec, tgt[k]), "", redacted, Removed))
      else if k !in src then None
      else
        var cur := Shown(configs, codec, src[k]);
        var tar := Shown(configs, codec, tgt[k]);
        if cur == tar then None
        else Some(SecretDiff(k, cur, tar, if redacted then "" else textDiff(cur, tar), redacted, Modified))
  }

  lemma CrossKeyed(configs: Config.Configs, codec: Codec, textDiff: (string, string) -> string, src: Doc, tgt: Doc)
    ensures KeyedBy(CrossEntries(configs, codec, textDiff, src, tgt))
  {
  }

  /** The text of the INFO record for a side that does not exist. */
  function MissingText(instance: string, store: string): string
  {
    "Secret doesn't exist in " + instance + " (" + store + ")"
  }

  /**
   * What the comparison of two read sides (not both missing) produces: a missing side is
   * listed under its own path and gives an INFO record followed by one record per key of the
   * other side; two documents give a comparison only when some key differs. Every
   * comparison is filed under the source path.
   */
  ghost predicate Classified(configs: Config.Configs, codec: Codec, textDiff: (string, string) -> string,
                             sourcePath: string, targetPath: string, sourceLabel: string, targetLabel: string,
                             src: Side, tgt: Side, comparisons: seq<SecretComparison>,
                             missingInSource: seq<string>, missingInTarget: seq<string>)
  {
    && missingInSource == (if src.Missing? then [sourcePath] else [])
    && missingInTarget == (if tgt.Missing? then [targetPath] else [])
    && |comparisons| <= 1
    && (forall cmp | cmp in comparisons :: cmp.path == sourcePath && cmp.diffs != [])
    && (src.Missing? ==>
          && |comparisons| == 1
          && comparisons[0].diffs[0] == Info(sourceLabel, "", Removed)
          && Realizes(comparisons[0].diffs[1..], DocOf(tgt).Keys, CrossEntries(configs, codec, textDiff, map[], DocOf(tgt))))
    && (tgt.Missing? ==>
          && |comparisons| == 1
          && comparisons[0].diffs[0] == Info("", targetLabel, Added)
          && Realizes(comparisons[0].diffs[1..], DocOf(src).Keys, CrossEntries(configs, codec, textDiff, DocOf(src), map[])))
    && (src.Present? && tgt.Present? ==>
          exists diffs ::
            && Realizes(diffs, src.doc.Keys + tgt.doc.Keys, CrossEntries(configs, codec, textDiff, src.doc, tgt.doc))
            && comparisons == if diffs == [] then [] else [SecretComparison(sourcePath, diffs)])
  }

  /** The comparison part of CompareVaultWithAWS, once both sides have been read. */
  method Classify(configs: Config.Configs, codec: Codec, textDiff: (string, string) -> string,
                  sourcePath: string, targetPath: string, sourceLabel: string, targetLabel: string,
                  src: Side, tgt: Side)
    returns (comparisons: seq<SecretComparison>, missingInSource: seq<string>, missingInTarget: seq<string>)
    requires !(src.Missing? && tgt.Missing?)
    ensures Classified(configs, codec, textDiff, sourcePath, targetPath, sourceLabel, targetLabel, src, tgt,
                       comparisons, missingInSource, missingInTarget)
  {
    if src.Missing? {
      CrossKeyed(configs, codec, textDiff, map[], tgt.doc);
      var diffs := EmitAfter(Info(sourceLabel, "", Removed), tgt.doc.Keys, CrossEntries(configs, codec, textDiff, map[], tgt.doc));
      return [SecretComparison(sourcePath, diffs)], [sourcePath], [];
    }
    if tgt.Missing? {
      CrossKeyed(configs, codec, textDiff, src.doc, map[]);
      var diffs := EmitAfter(Info("", targetLabel, Added), src.doc.Keys, CrossEntries(configs, codec, textDiff, src.doc, map[]));
      return [SecretComparison(sourcePath, diffs)], [], [targetPath];
    }
    CrossKeyed(configs, codec, textDiff, src.doc, tgt.doc);
    var diffs := EmitBoth(src.doc.Keys, tgt.doc.Keys, CrossEntries(configs, codec, textDiff, src.doc, tgt.doc));
    comparisons := [];
    if |diffs| > 0 {
      comparisons := [SecretComparison(sourcePath, diffs)];
    }
    assert comparisons == if diffs == [] then [] else [SecretComparison(sourcePath, diffs)];
    return comparisons, [], [];
  }

  /**
   * CompareVaultWithAWS: both entries are looked up, the pair of store kinds is checked, the
   * source and then the target are read (the target's Vault client uses the source's KV
   * engine), and only when neither side exists is the comparison refused.
   */
  method CompareVaultWithAWS(codec: Codec, textDiff: (string, string) -> string, configs: Config.Configs,
                             vault: VaultState, aws: AwsState,
                             sourceInstanceName: string, targetInstanceName: string, sourcePath: string, targetPath: string,
                             sourceEnv: string, targetEnv: string, sourceKV: string)
    returns (r: Result<CrossStoreComparisonResult, CrossError>)
    ensures var sourceConfig := Config.GetEnvironmentConfigWithAws(configs, sourceInstanceName);
            var targetConfig := Config.GetEnvironmentConfigWithAws(configs, targetInstanceName);
      && (sourceConfig.Failure? ==> r == Failure(SourceConfig(sourceConfig.error)))
      && (sourceConfig.Success? && targetConfig.Failure? ==> r == Failure(TargetConfig(targetConfig.error)))
      && (sourceConfig.Success? && targetConfig.Success? ==>
            var sStore := sourceConfig.value.store;
            var tStore := targetConfig.value.store;
            var src := ReadSide(configs, codec, sourceConfig.value, sourceEnv, sourceKV, vault, aws, sourcePath);
            var tgt := ReadSide(configs, codec, targetConfig.value, targetEnv, sourceKV, vault, aws, targetPath);
            && (!SupportedPair(sStore, tStore) ==> r == Failure(StorePair(sStore, tStore)))
            && (SupportedPair(sStore, tStore) && src.Failure? ==> r == Failure(SourceRead(src.error)))
            && (SupportedPair(sStore, tStore) && src.Success? && tgt.Failure? ==> r == Failure(TargetRead(tgt.error)))
            && (SupportedPair(sStore, tStore) && src == Success(Missing) && tgt == Success(Missing) ==>
                  r == Failure(AbsentInBoth(sourcePath, targetPath)))
            && (r.Success? <==> SupportedPair(sStore, tStore) && src.Success? && tgt.Success? &&
                                !(src.value.Missing? && tgt.value.Missing?))
            && (r.Success? ==>
                  var res := r.value;
                  && res.sourcePath == sourcePath && res.targetPath == targetPath
                  && res.sourceEnv == sourceEnv && res.targetEnv == targetEnv
                  && res.sourceInstance == sourceInstanceName && res.targetInstance == targetInstanceName
                  && res.sourceStoreType == sStore && res.targetStoreType == tStore
                  && Classified(configs, codec, textDiff, sourcePath, targetPath,
                                MissingText(sourceInstanceName, sStore), MissingText(targetInstanceName, tStore),
                                src.value, tgt.value, res.comparisons, res.missingInSource, res.missingInTarget)))
  {
    var sourceConfig := Config.GetEnvironmentConfigWithAws(configs, sourceInstanceName);
    if sourceConfig.Failure? {
      return Failure(SourceConfig(sourceConfig.error));
    }
    var targetConfig := Config.GetEnvironmentConfigWithAws(configs, targetInstanceName);
    if targetConfig.Failure? {
      return Failure(TargetConfig(targetConfig.error));
    }
    var sourceStoreType := sourceConfig.value.store;
    var targetStoreType := targetConfig.value.store;
    if !SupportedPair(sourceStoreType, targetStoreType) {
      return Failure(StorePair(sourceStoreType, targetStoreType));
    }

    var source := ReadSide(configs, codec, sourceConfig.value, sourceEnv, sourceKV, vault, aws, sourcePath);
    if source.Failure? {
      return Failure(SourceRead(source.error));
    }
    var target := ReadSide(configs, codec, targetConfig.value, targetEnv, sourceKV, vault, aws, targetPath);
    if target.Failure? {
      return Failure(TargetRead(target.error));
    }
    if source.value.Missing? && target.value.Missing? {
      return Failure(AbsentInBoth(sourcePath, targetPath));
    }

    var comparisons, missingInSource, missingInTarget :=
      Classify(configs, codec, textDiff, sourcePath, targetPath,
               MissingText(sourceInstanceName, sourceStoreType), MissingText(targetInstanceName, targetStoreType),
               source.value, target.value);
    return Success(CrossStoreComparisonResult(sourcePath, targetPath, sourceEnv, targetEnv,
                                              sourceInstanceName, targetInstanceName, sourceStoreType, targetStoreType,
                                              comparisons, missingInSource, missingInTarget));
  }

  /**
   * As written the entries are looked up with the unextended GetEnvironmentConfig, which
   * refuses every AWS entry, so no pair of entries it returns is ever accepted.
   */
  lemma AsWrittenNoPairAccepted(configs: Config.Configs, sourceInstanceName: string, targetInstanceName: string)
    requires Config.GetEnvironmentConfig(configs, sourceInstanceName).Success?
    requires Config.GetEnvironmentConfig(configs, targetInstanceName).Success?
    ensures !SupportedPair(Config.GetEnvironmentConfig(configs, sourceInstanceName).value.store,
                           Config.GetEnvironmentConfig(configs, targetInstanceName).value.store)
  {
  }

  /**
   * A key gets a record exactly when it is on one side only or its shown strings differ; the
   * status says which; the record is redacted exactly when shouldRedact says so, and then
   * carries no diff text.
   */
  lemma CrossEntriesClassify(configs: Config.Configs, codec: Codec, textDiff: (string, string) -> string,
                             src: Doc, tgt: Doc, k: string)
    requires k in src || k in tgt
    ensures var e := CrossEntries(configs, codec, textDiff, src, tgt)(k);
      && (e.None? <==> k in src && k in tgt && Shown(configs, codec, src[k]) == Shown(configs, codec, tgt[k]))
      && (e.Some? ==> (e.value.status == Added <==> k !in tgt) && (e.value.status == Removed <==> k !in src))
      && (e.Some? ==> (e.value.isRedacted <==> ShouldRedact(configs, k)))
      && (e.Some? && e.value.isRedacted ==> e.value.diff == "")
      && (e.Some? && Config.ShouldRedactSecrets(configs) ==> e.value.isRedacted)
  {
  }

  /** The keys reported for two present documents are exactly the one-sided ones and those whose shown strings differ. */
  lemma CrossReports(configs: Config.Configs, codec: Codec, textDiff: (string, string) -> string,
                     src: Doc, tgt: Doc, diffs: seq<SecretDiff>, k: string)
    requires Realizes(diffs, src.Keys + tgt.Keys, CrossEntries(configs, codec, textDiff, src, tgt))
    ensures HasEntry(diffs, k) <==>
      (k in src && k !in tgt) || (k !in src && k in tgt)
      || (k in src && k in tgt && Shown(configs, codec, src[k]) != Shown(configs, codec, tgt[k]))
  {
    RealizesHasEntry(diffs, src.Keys + tgt.Keys, CrossEntries(configs, codec, textDiff, src, tgt), k);
  }

  /** A Vault secret equal to its AWS counterpart gives no comparison at all. */
  lemma {:induction false} CrossSelf(configs: Config.Configs, codec: Codec, textDiff: (string, string) -> string,
                                     doc: Doc, diffs: seq<SecretDiff>)
    requires Realizes(diffs, doc.Keys + doc.Keys, CrossEntries(configs, codec, textDiff, doc, doc))
    ensures diffs == []
  {
    RealizesNothing(diffs, doc.Keys + doc.Keys, CrossEntries(configs, codec, textDiff, doc, doc));
  }
}
