/**
 * pkg/awssecretsmanager/instance_compare.go: comparing a secret of one Secrets Manager
 * account with a secret of another, each reached through its own configuration entry.
 */
module AwsInstanceCompare {
  import opened Wrappers
  import opened Json
  import opened Diffs
  import Config
  import opened AwsApi
  import opened AwsClient

  datatype InstanceComparisonResult = InstanceComparisonResult(
    sourcePath: string,
    targetPath: string,
    sourceEnv: string,
    targetEnv: string,
    comparisons: seq<SecretComparison>,
    sourceInstance: string,
    targetInstance: string,
    missingInSource: seq<string>,
    missingInTarget: seq<string>)

  /** secretFormatName. */
  function SecretFormatName(isJSON: bool): (r: string)
    ensures r == "JSON" <==> isJSON
    ensures r == "string" <==> !isJSON
  {
    if isJSON then "JSON" else "string"
  }

  /**
   * A key of two JSON secrets (a missing secret counts as empty): one-sided keys are "+"
   * (source client's policy) or "-" (target client's); common keys are compared after JSON
   * redaction and give "*" only when the shown strings differ, without diff text when the
   * key is redacted.
   */
  function InstanceEntries(sc: Client, tc: Client, codec: Codec, textDiff: (string, string) -> string,
                           src: Doc, tgt: Doc): (e: string -> Option<SecretDiff>)
  {
    k =>
      if k in src && k !in tgt then Some(SecretDiff(k, Shown(sc, codec, src[k]), "", "", IsRedactedKey(sc, k), Added))
      else if k !in src && k in tgt then Some(SecretDiff(k, "", Shown(tc, codec, tgt[k]), "", IsRedactedKey(tc, k), Removed))
      else if k !in src then None
      else
        var cur := Shown(sc, codec, src[k]);
        var tar := Shown(tc, codec, tgt[k]);
        var redacted := IsRedactedKey(sc, k);
        if cur == tar then None
        else Some(SecretDiff(k, cur, tar, if redacted then "" else textDiff(cur, tar), redacted, Modified))
  }

  lemma InstanceKeyed(sc: Client, tc: Client, codec: Codec, textDiff: (string, string) -> string, src: Doc, tgt: Doc)
    ensures KeyedBy(InstanceEntries(sc, tc, codec, textDiff, src, tgt))
  {
  }

  function InstanceMissing(instance: string): string
  {
    "Secret doesn't exist in " + instance + " AWS Secrets Manager instance"
  }

  /** The two records of a format mismatch: which format each side has, then the refusal. */
  function MismatchRecords(sourceName: string, targetName: string, sourceIsJSON: bool, targetIsJSON: bool): seq<SecretDiff>
  {
    [ Info("Secret in " + sourceName + " is in " + SecretFormatName(sourceIsJSON) + " format",
           "Secret in " + targetName + " is in " + SecretFormatName(targetIsJSON) + " format", Modified),
      SecretDiff("ERROR", "Incompatible secret types: one is JSON, the other is a string",
                 "Cannot compare secrets with different formats", "", false, Modified) ]
  }

  const StructureError := SecretDiff("ERROR", "Invalid secret value structure",
                                     "Cannot compare secrets with invalid structure", "", false, Modified)

  /**
   * Two plain secrets: an ERROR record when either lacks "value", nothing when the values
   * print alike, otherwise one "value" record redacted as the source client says.
   */
  function PlainRecords(sc: Client, codec: Codec, textDiff: (string, string) -> string, src: Doc, tgt: Doc): (r: seq<SecretDiff>)
    ensures "value" !in src || "value" !in tgt ==> r == [StructureError]
    ensures "value" in src && "value" in tgt ==>
      var cur := Render(codec, src["value"]);
      var tar := Render(codec, tgt["value"]);
      && (r == [] <==> cur == tar)
      && (r != [] ==> r == [SecretDiff("value", cur, tar, if sc.redactSecrets then "" else textDiff(cur, tar),
                                       sc.redactSecrets, Modified)])
  {
    if "value" !in src || "value" !in tgt then [StructureError]
    else
      var cur := Render(codec, src["value"]);
      var tar := Render(codec, tgt["value"]);
      if cur == tar then []
      else [SecretDiff("value", cur, tar, if sc.redactSecrets then "" else textDiff(cur, tar), sc.redactSecrets, Modified)]
  }

  /** GetSecret always files a plain secret under "value", so the ERROR record cannot appear. */
  lemma PlainStructureAlwaysValid(codec: Codec, s: AwsState, sourcePath: string, targetPath: string)
    requires GetSecret(codec, s, sourcePath).Fetched? && !GetSecret(codec, s, sourcePath).isJSON
    requires GetSecret(codec, s, targetPath).Fetched? && !GetSecret(codec, s, targetPath).isJSON
    ensures "value" in GetSecret(codec, s, sourcePath).data && "value" in GetSecret(codec, s, targetPath).data
  {
  }

  /**
   * What the comparison of two secrets (not both missing) produces. A missing side is listed
   * in MissingInSource or MissingInTarget (the source path in both cases) and gives an INFO
   * record and one record per key of the other side; a format mismatch gives exactly its
   * two records; otherwise a comparison is present only when it has records.
   */
  ghost predicate Classified(sc: Client, tc: Client, codec: Codec, textDiff: (string, string) -> string,
                             path: string, sourceName: string, targetName: string, src: Fetch, tgt: Fetch,
                             comparisons: seq<SecretComparison>, missingInSource: seq<string>, missingInTarget: seq<string>)
  {
    var srcDoc := if src.Fetched? then src.data else map[];
    var tgtDoc := if tgt.Fetched? then tgt.data else map[];
    && missingInSource == (if src.NotFound? then [path] else [])
    && missingInTarget == (if tgt.NotFound? then [path] else [])
    && |comparisons| <= 1
    && (forall cmp | cmp in comparisons :: cmp.path == path && cmp.diffs != [])
    && (src.NotFound? ==>
          && |comparisons| == 1
          && comparisons[0].diffs[0] == Info(InstanceMissing(sourceName), "", Removed)
          && Realizes(comparisons[0].diffs[1..], tgtDoc.Keys, InstanceEntries(sc, tc, codec, textDiff, map[], tgtDoc)))
    && (tgt.NotFound? ==>
          && |comparisons| == 1
          && comparisons[0].diffs[0] == Info("", InstanceMissing(targetName), Added)
          && Realizes(comparisons[0].diffs[1..], srcDoc.Keys, InstanceEntries(sc, tc, codec, textDiff, srcDoc, map[])))
    && (src.Fetched? && tgt.Fetched? && src.isJSON != tgt.isJSON ==>
          comparisons == [SecretComparison(path, MismatchRecords(sourceName, targetName, src.isJSON, tgt.isJSON))])
    && (src.Fetched? && tgt.Fetched? && !src.isJSON && !tgt.isJSON ==>
          var records := PlainRecords(sc, codec, textDiff, srcDoc, tgtDoc);
          comparisons == if records == [] then [] else [SecretComparison(path, records)])
    && (src.Fetched? && tgt.Fetched? && src.isJSON && tgt.isJSON ==>
          exists diffs ::
            && Realizes(diffs, srcDoc.Keys + tgtDoc.Keys, InstanceEntries(sc, tc, codec, textDiff, srcDoc, tgtDoc))
            && comparisons == if diffs == [] then [] else [SecretComparison(path, diffs)])
  }

  /** The classification part of CompareAWSSecretInstances. */
  method Classify(sc: Client, tc: Client, codec: Codec, textDiff: (string, string) -> string,
                  path: string, sourceName: string, targetName: string, source: Fetch, target: Fetch)
    returns (comparisons: seq<SecretComparison>, missingInSource: seq<string>, missingInTarget: seq<string>)
    requires (source.Fetched? || source.NotFound?) && (target.Fetched? || target.NotFound?)
    requires !(source.NotFound? && target.NotFound?)
    ensures Classified(sc, tc, codec, textDiff, path, sourceName, targetName, source, target,
                       comparisons, missingInSource, missingInTarget)
  {
    comparisons, missingInSource, missingInTarget := [], [], [];
    if source.NotFound? {
      InstanceKeyed(sc, tc, codec, textDiff, map[], target.data);
      var diffs := EmitAfter(Info(InstanceMissing(sourceName), "", Removed), target.data.Keys,
                             InstanceEntries(sc, tc, codec, textDiff, map[], target.data));
      return [SecretComparison(path, diffs)], [path], [];
    }
    if target.NotFound? {
      InstanceKeyed(sc, tc, codec, textDiff, source.data, map[]);
      var diffs := EmitAfter(Info("", InstanceMissing(targetName), Added), source.data.Keys,
                             InstanceEntries(sc, tc, codec, textDiff, source.data, map[]));
      return [SecretComparison(path, diffs)], [], [path];
    }
    if source.isJSON != target.isJSON {
      return [SecretComparison(path, MismatchRecords(sourceName, targetName, source.isJSON, target.isJSON))], [], [];
    }
    if !source.isJSON && !target.isJSON {
      var records := PlainRecords(sc, codec, textDiff, source.data, target.data);
      if records != [] {
        comparisons := [SecretComparison(path, records)];
      }
      return;
    }
    comparisons := CompareObjects(sc, tc, codec, textDiff, path, source.data, target.data);
  }

  /** The two loops over two JSON secrets; the comparison is kept only when it has records. */
  method CompareObjects(sc: Client, tc: Client, codec: Codec, textDiff: (string, string) -> string,
                        path: string, src: Doc, tgt: Doc)
    returns (comparisons: seq<SecretComparison>)
    ensures exists diffs ::
      && Realizes(diffs, src.Keys + tgt.Keys, InstanceEntries(sc, tc, codec, textDiff, src, tgt))
      && comparisons == if diffs == [] then [] else [SecretComparison(path, diffs)]
  {
    InstanceKeyed(sc, tc, codec, textDiff, src, tgt);
    var diffs := EmitBoth(src.Keys, tgt.Keys, InstanceEntries(sc, tc, codec, textDiff, src, tgt));
    comparisons := [];
    if |diffs| > 0 {
      comparisons := [SecretComparison(path, diffs)];
    }
    assert comparisons == if diffs == [] then [] else [SecretComparison(path, diffs)];
  }

  datatype InstanceError =
    | SourceConfig(err: Config.ConfigError)
    | TargetConfig(err: Config.ConfigError)
    | SourceNotAws(instance: string)
    | TargetNotAws(instance: string)
    | SourceClient(instance: string)
    | TargetClient(instance: string)
    | SourceReadFailed(path: string)
    | TargetReadFailed(path: string)
    | AbsentInBoth(sourcePath: string, targetPath: string)

  /** An empty target environment or target path means the source's. */
  function OrDefault(value: string, default: string): (r: string)
    ensures value == "" ==> r == default
    ensures value != "" ==> r == value
  {
    if value == "" then default else value
  }

  /**
   * CompareAWSSecretInstances: both entries must be Secrets Manager entries with a role;
   * the source secret is read from `configPath` in the source account, the target secret
   * from the (defaulted) target path in the target account.
   */
  method CompareAWSSecretInstances(codec: Codec, textDiff: (string, string) -> string, configs: Config.Configs,
                                   sourceAccount: AwsState, targetAccount: AwsState,
                                   sourceInstanceName: string, targetInstanceName: string, configPath: string,
                                   sourceEnv: string, targetConfigPath: string, targetEnv: string)
    returns (r: Result<InstanceComparisonResult, InstanceError>)
    ensures var sourceConfig := Config.GetEnvironmentConfigWithAws(configs, sourceInstanceName);
            var targetConfig := Config.GetEnvironmentConfigWithAws(configs, targetInstanceName);
      && (sourceConfig.Failure? ==> r == Failure(SourceConfig(sourceConfig.error)))
      && (sourceConfig.Success? && targetConfig.Failure? ==> r == Failure(TargetConfig(targetConfig.error)))
      && (sourceConfig.Success? && targetConfig.Success? ==>
            var sEntry, tEntry := sourceConfig.value, targetConfig.value;
            && (sEntry.store != Config.AwsStore ==> r == Failure(SourceNotAws(sourceInstanceName)))
            && (sEntry.store == Config.AwsStore && tEntry.store != Config.AwsStore ==>
                  r == Failure(TargetNotAws(targetInstanceName)))
            && (sEntry.store == Config.AwsStore && tEntry.store == Config.AwsStore ==>
                  var sc, tc := NewClient(sEntry, configs), NewClient(tEntry, configs);
                  && (sc.Failure? ==> r == Failure(SourceClient(sourceInstanceName)))
                  && (sc.Success? && tc.Failure? ==> r == Failure(TargetClient(targetInstanceName)))
                  && (sc.Success? && tc.Success? ==>
                        var tPath := OrDefault(targetConfigPath, configPath);
                        var src := GetSecret(codec, sourceAccount, configPath);
                        var tgt := GetSecret(codec, targetAccount, tPath);
                        && (!(src.Fetched? || src.NotFound?) ==> r == Failure(SourceReadFailed(configPath)))
                        && ((src.Fetched? || src.NotFound?) && !(tgt.Fetched? || tgt.NotFound?) ==>
                              r == Failure(TargetReadFailed(tPath)))
                        && (src.NotFound? && tgt.NotFound? ==> r == Failure(AbsentInBoth(configPath, tPath)))
                        && (r.Success? <==> (src.Fetched? || src.NotFound?) && (tgt.Fetched? || tgt.NotFound?)
                                            && !(src.NotFound? && tgt.NotFound?))
                        && (r.Success? ==>
                              && r.value.sourcePath == configPath && r.value.targetPath == tPath
                              && r.value.sourceEnv == sourceEnv && r.value.targetEnv == OrDefault(targetEnv, sourceEnv)
                              && r.value.sourceInstance == sourceInstanceName
                              && r.value.targetInstance == targetInstanceName
                              && Classified(sc.value, tc.value, codec, textDiff, configPath, sourceInstanceName,
                                            targetInstanceName, src, tgt, r.value.comparisons,
                                            r.value.missingInSource, r.value.missingInTarget)))))
  {
    var tEnv := OrDefault(targetEnv, sourceEnv);
    var tPath := OrDefault(targetConfigPath, configPath);
    var sourceConfig := Config.GetEnvironmentConfigWithAws(configs, sourceInstanceName);
    if sourceConfig.Failure? {
      return Failure(SourceConfig(sourceConfig.error));
    }
    var targetConfig := Config.GetEnvironmentConfigWithAws(configs, targetInstanceName);
    if targetConfig.Failure? {
      return Failure(TargetConfig(targetConfig.error));
    }
    if sourceConfig.value.store != Config.AwsStore {
      return Failure(SourceNotAws(sourceInstanceName));
    }
    if targetConfig.value.store != Config.AwsStore {
      return Failure(TargetNotAws(targetInstanceName));
    }
    var sourceClient := NewClient(sourceConfig.value, configs);
    if sourceClient.Failure? {
      return Failure(SourceClient(sourceInstanceName));
    }
    var targetClient := NewClient(targetConfig.value, configs);
    if targetClient.Failure? {
      return Failure(TargetClient(targetInstanceName));
    }
    var source := GetSecret(codec, sourceAccount, configPath);
    if !source.Fetched? && !source.NotFound? {
      return Failure(SourceReadFailed(configPath));
    }
    var target := GetSecret(codec, targetAccount, tPath);
    if !target.Fetched? && !target.NotFound? {
      return Failure(TargetReadFailed(tPath));
    }
    if source.NotFound? && target.NotFound? {
      return Failure(AbsentInBoth(configPath, tPath));
    }
    var comparisons, missingInSource, missingInTarget :=
      Classify(sourceClient.value, targetClient.value, codec, textDiff, configPath, sourceInstanceName, targetInstanceName,
               source, target);
    return Success(InstanceComparisonResult(configPath, tPath, sourceEnv, tEnv, comparisons,
                                            sourceInstanceName, targetInstanceName, missingInSource, missingInTarget));
  }

  /**
   * A key gets a record exactly when it is on one side only or its shown strings differ;
   * with redaction on (the default) every record is redacted and none carries diff text.
   */
  lemma InstanceEntriesClassify(sc: Client, tc: Client, codec: Codec, textDiff: (string, string) -> string,
                                src: Doc, tgt: Doc, k: string)
    requires k in src || k in tgt
    requires sc.redactSecrets == tc.redactSecrets
    ensures var e := InstanceEntries(sc, tc, codec, textDiff, src, tgt)(k);
      && (e.None? <==> k in src && k in tgt && Shown(sc, codec, src[k]) == Shown(tc, codec, tgt[k]))
      && (e.Some? ==> (e.value.status == Added <==> k !in tgt) && (e.value.status == Removed <==> k !in src))
      && (e.Some? && sc.redactSecrets ==> e.value.isRedacted && e.value.diff == "")
  {
    if sc.redactSecrets {
      assert IsRedactedKey(sc, k) && IsRedactedKey(tc, k);
    }
  }

  /** The same secret in both accounts gives no comparison. */
  lemma {:induction false} InstanceEntriesSelf(c: Client, codec: Codec, textDiff: (string, string) -> string,
                                               doc: Doc, diffs: seq<SecretDiff>)
    requires Realizes(diffs, doc.Keys + doc.Keys, InstanceEntries(c, c, codec, textDiff, doc, doc))
    ensures diffs == []
  {
    RealizesNothing(diffs, doc.Keys + doc.Keys, InstanceEntries(c, c, codec, textDiff, doc, doc));
  }
}
