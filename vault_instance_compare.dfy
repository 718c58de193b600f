/**
 * pkg/vault/instance_compare.go: comparing the same `app/env/suffix` secret in two Vault
 * instances named by configuration entries.
 */
module VaultInstanceCompare {
  import opened Wrappers
  import opened Text
  import opened Json
  import opened Diffs
  import Config
  import opened VaultApi
  import opened VaultClient

  datatype InstanceComparisonResult = InstanceComparisonResult(
    app: string,
    environment: string,
    kvEngine: string,
    pathSuffix: string,
    comparisons: seq<SecretComparison>,
    sourceInstance: string,
    targetInstance: string,
    missingInSource: seq<string>,
    missingInTarget: seq<string>)

  /**
   * A key of the two documents (an absent document counts as empty): one-sided keys are "+"
   * or "-", common keys are "*" when their `%v` strings differ; a key counts as redacted when
   * it matches a pattern or the suffix mentions "secret"; no record carries diff text.
   */
  function InstanceEntries(c: Client, codec: Codec, suffix: string, src: Doc, tgt: Doc): (e: string -> Option<SecretDiff>)
  {
    k =>
      var hidden := IsRedactedKey(c, k) || Contains(suffix, "secret");
      if k in src && k !in tgt then Some(SecretDiff(k, Render(codec, src[k]), "", "", hidden, Added))
      else if k !in src && k in tgt then Some(SecretDiff(k, "", Render(codec, tgt[k]), "", hidden, Removed))
      else if k !in src || Render(codec, src[k]) == Render(codec, tgt[k]) then None
      else Some(SecretDiff(k, Render(codec, src[k]), Render(codec, tgt[k]), "", hidden, Modified))
  }

  lemma InstanceKeyed(c: Client, codec: Codec, suffix: string, src: Doc, tgt: Doc)
    ensures KeyedBy(InstanceEntries(c, codec, suffix, src, tgt))
  {
  }

  /**
   * The unqualified key test of pkg/vault/instance_compare.go is read as the source client's:
   * both clients are built from one configuration, so either client gives the same answer.
   */
  lemma InstancesRedactAlike(sourceEntry: Config.EnvironmentConfig, targetEntry: Config.EnvironmentConfig,
                             configs: Config.Configs, environment: string, kvEngine: string, k: string)
    ensures IsRedactedKey(NewClient(sourceEntry, configs, environment, kvEngine), k)
        == IsRedactedKey(NewClient(targetEntry, configs, environment, kvEngine), k)
  {
  }

  function InstanceMissing(instance: string): string
  {
    "Secret doesn't exist in " + instance + " vault instance"
  }

  datatype InstanceError =
    | BadSuffix(suffix: string)
    | BadEnvironment(environment: string)
    | SourceConfig(err: Config.ConfigError)
    | TargetConfig(err: Config.ConfigError)
    | SourceReadFailed(path: string)
    | TargetReadFailed(path: string)
    | AbsentInBoth(path: string)

  /**
   * What the comparison of two readable documents (not both missing) produces: a missing
   * side is listed in MissingInSource or MissingInTarget and gives an INFO record followed by
   * one record per key of the other side; two documents give a comparison only when some key
   * differs.
   */
  ghost predicate Classified(c: Client, codec: Codec, suffix: string, path: string, sourceName: string, targetName: string,
                             src: Fetch, tgt: Fetch, comparisons: seq<SecretComparison>,
                             missingInSource: seq<string>, missingInTarget: seq<string>)
  {
    var srcDoc := if src.Fetched? then Entries(src.data) else map[];
    var tgtDoc := if tgt.Fetched? then Entries(tgt.data) else map[];
    && missingInSource == (if src.NotFound? then [path] else [])
    && missingInTarget == (if tgt.NotFound? then [path] else [])
    && |comparisons| <= 1
    && (forall cmp | cmp in comparisons :: cmp.path == path && cmp.diffs != [])
    && (src.NotFound? ==>
          && |comparisons| == 1
          && comparisons[0].diffs[0] == Info(InstanceMissing(sourceName), "", Removed)
          && Realizes(comparisons[0].diffs[1..], tgtDoc.Keys, InstanceEntries(c, codec, suffix, map[], tgtDoc)))
    && (tgt.NotFound? ==>
          && |comparisons| == 1
          && comparisons[0].diffs[0] == Info("", InstanceMissing(targetName), Added)
          && Realizes(comparisons[0].diffs[1..], srcDoc.Keys, InstanceEntries(c, codec, suffix, srcDoc, map[])))
    && (src.Fetched? && tgt.Fetched? ==>
          Realizes(if comparisons == [] then [] else comparisons[0].diffs,
                   srcDoc.Keys + tgtDoc.Keys, InstanceEntries(c, codec, suffix, srcDoc, tgtDoc)))
  }

  /** The classification part of CompareVaultInstances, once both reads have succeeded or found nothing. */
  method Classify(c: Client, codec: Codec, suffix: string, path: string, sourceName: string, targetName: string,
                  source: Fetch, target: Fetch)
    returns (comparisons: seq<SecretComparison>, missingInSource: seq<string>, missingInTarget: seq<string>)
    requires Usable(source) && Usable(target) && !(source.NotFound? && target.NotFound?)
    ensures Classified(c, codec, suffix, path, sourceName, targetName, source, target,
                       comparisons, missingInSource, missingInTarget)
  {
    comparisons, missingInSource, missingInTarget := [], [], [];
    if source.NotFound? {
      var doc := Entries(target.data);
      InstanceKeyed(c, codec, suffix, map[], doc);
      var diffs := EmitAfter(Info(InstanceMissing(sourceName), "", Removed), doc.Keys, InstanceEntries(c, codec, suffix, map[], doc));
      return [SecretComparison(path, diffs)], [path], [];
    }

    if target.NotFound? {
      var doc := Entries(source.data);
      InstanceKeyed(c, codec, suffix, doc, map[]);
      var diffs := EmitAfter(Info("", InstanceMissing(targetName), Added), doc.Keys, InstanceEntries(c, codec, suffix, doc, map[]));
      return [SecretComparison(path, diffs)], [], [path];
    }

    var src, dst := Entries(source.data), Entries(target.data);
    InstanceKeyed(c, codec, suffix, src, dst);
    var diffs := EmitBoth(src.Keys, dst.Keys, InstanceEntries(c, codec, suffix, src, dst));
    if |diffs| > 0 {
      comparisons := [SecretComparison(path, diffs)];
    }
    assert source.Fetched? && target.Fetched?;
    assert Realizes(if comparisons == [] then [] else comparisons[0].diffs,
                    src.Keys + dst.Keys, InstanceEntries(c, codec, suffix, src, dst));
  }

  /**
   * CompareVaultInstances: the suffix and the environment are checked before any entry is
   * looked up; both instances are read at the same path.
   */
  method CompareVaultInstances(codec: Codec, configs: Config.Configs, sourceVault: VaultState, targetVault: VaultState,
                               sourceInstanceName: string, targetInstanceName: string, appName: string,
                               environment: string, kvEngine: string, pathSuffix: string)
    returns (r: Result<InstanceComparisonResult, InstanceError>)
    ensures pathSuffix !in ValidSuffixes ==> r == Failure(BadSuffix(pathSuffix))
    ensures pathSuffix in ValidSuffixes && environment !in ValidEnvironments ==>
      r == Failure(BadEnvironment(environment))
    ensures pathSuffix in ValidSuffixes && environment in ValidEnvironments ==>
      var sourceConfig := Config.GetEnvironmentConfig(configs, sourceInstanceName);
      var targetConfig := Config.GetEnvironmentConfig(configs, targetInstanceName);
      && (sourceConfig.Failure? ==> r == Failure(SourceConfig(sourceConfig.error)))
      && (sourceConfig.Success? && targetConfig.Failure? ==> r == Failure(TargetConfig(targetConfig.error)))
      && (sourceConfig.Success? && targetConfig.Success? ==>
            var sc := NewClient(sourceConfig.value, configs, environment, kvEngine);
            var tc := NewClient(targetConfig.value, configs, environment, kvEngine);
            var path := SecretPath(appName, environment, pathSuffix);
            var src := GetSecret(sc, sourceVault, path);
            var tgt := GetSecret(tc, targetVault, path);
            && (r.Success? <==> Usable(src) && Usable(tgt) && !(src.NotFound? && tgt.NotFound?))
            && (!Usable(src) ==> r == Failure(SourceReadFailed(path)))
            && (Usable(src) && !Usable(tgt) ==> r == Failure(TargetReadFailed(path)))
            && (Usable(src) && Usable(tgt) && src.NotFound? && tgt.NotFound? ==> r == Failure(AbsentInBoth(path)))
            && (r.Success? ==>
                  var res := r.value;
                  && res.app == appName && res.environment == environment && res.kvEngine == kvEngine
                  && res.pathSuffix == pathSuffix
                  && res.sourceInstance == sourceInstanceName && res.targetInstance == targetInstanceName
                  && Classified(sc, codec, pathSuffix, path, sourceInstanceName, targetInstanceName, src, tgt,
                                res.comparisons, res.missingInSource, res.missingInTarget)))
  {
    var validPath := IsOneOf(pathSuffix, ValidSuffixes);
    if !validPath {
      return Failure(BadSuffix(pathSuffix));
    }
    var validEnv := IsOneOf(environment, ValidEnvironments);
    if !validEnv {
      return Failure(BadEnvironment(environment));
    }
    var sourceConfig := Config.GetEnvironmentConfig(configs, sourceInstanceName);
    if sourceConfig.Failure? {
      return Failure(SourceConfig(sourceConfig.error));
    }
    var targetConfig := Config.GetEnvironmentConfig(configs, targetInstanceName);
    if targetConfig.Failure? {
      return Failure(TargetConfig(targetConfig.error));
    }
    var sc := NewClient(sourceConfig.value, configs, environment, kvEngine);
    var tc := NewClient(targetConfig.value, configs, environment, kvEngine);
    var path := SecretPath(appName, environment, pathSuffix);

    var source := GetSecret(sc, sourceVault, path);
    if !Usable(source) {
      return Failure(SourceReadFailed(path));
    }
    var target := GetSecret(tc, targetVault, path);
    if !Usable(target) {
      return Failure(TargetReadFailed(path));
    }
    if source.NotFound? && target.NotFound? {
      return Failure(AbsentInBoth(path));
    }
    var comparisons, missingInSource, missingInTarget :=
      Classify(sc, codec, pathSuffix, path, sourceInstanceName, targetInstanceName, source, target);
    return Success(InstanceComparisonResult(appName, environment, kvEngine, pathSuffix, comparisons,
                                            sourceInstanceName, targetInstanceName, missingInSource, missingInTarget));
  }

  /**
   * A key gets a record exactly when it is on one side only or its `%v` strings differ; the
   * status says which; the record is redacted exactly when the key matches or the suffix
   * mentions "secret".
   */
  lemma InstanceEntriesClassify(c: Client, codec: Codec, suffix: string, src: Doc, tgt: Doc, k: string)
    requires k in src || k in tgt
    ensures var e := InstanceEntries(c, codec, suffix, src, tgt)(k);
      && (e.None? <==> k in src && k in tgt && Render(codec, src[k]) == Render(codec, tgt[k]))
      && (e.Some? ==> (e.value.status == Added <==> k !in tgt) && (e.value.status == Removed <==> k !in src))
      && (e.Some? ==> (e.value.isRedacted <==> IsRedactedKey(c, k) || Contains(suffix, "secret")))
      && (e.Some? ==> e.value.diff == "")
  {
  }

  /** Swapping the instances mirrors every record exactly. */
  lemma InstanceEntriesMirror(c: Client, codec: Codec, suffix: string, src: Doc, tgt: Doc, k: string)
    ensures var e := InstanceEntries(c, codec, suffix, src, tgt)(k);
            var m := InstanceEntries(c, codec, suffix, tgt, src)(k);
      e.Some? == m.Some? && (e.Some? ==> m.value == Mirror(e.value))
  {
  }

  /** Two instances holding the same document give no comparison. */
  lemma {:induction false} InstanceEntriesSelf(c: Client, codec: Codec, suffix: string, doc: Doc, diffs: seq<SecretDiff>)
    requires Realizes(diffs, doc.Keys + doc.Keys, InstanceEntries(c, codec, suffix, doc, doc))
    ensures diffs == []
  {
    RealizesNothing(diffs, doc.Keys + doc.Keys, InstanceEntries(c, codec, suffix, doc, doc));
  }
}
