/**
 * pkg/comparison/cross_store_copy.go: copying a secret between two configured instances. A
 * Vault/AWS pair is copied here; two instances of the same kind are handed to that store's
 * own copy, run by the target instance.
 */
module CrossStoreCopy {
  import opened Wrappers
  import opened Json
  import opened CopyEngine
  import Config
  import opened VaultApi
  import opened AwsApi
  import VaultClient
  import AwsClient
  import VaultCopy
  import AwsCopy
  import CrossStoreCompare

  /** The state of every store an entry may name, as one side of the copy sees it. */
  datatype Instances = Instances(vault: VaultState, aws: AwsState)

  /** The report of a successful copy (the `Keys` field is never filled in). */
  datatype CopyResult = CopyResult(
    sourcePath: string,
    targetPath: string,
    sourceEnv: string,
    targetEnv: string,
    sourceInstance: string,
    targetInstance: string,
    sourceStoreType: string,
    targetStoreType: string,
    success: bool,
    message: string)

  function SuccessMessage(sourcePath: string, targetPath: string): string
  {
    "Successfully copied secret from " + sourcePath + " to " + targetPath
  }

  datatype CopyFailure =
    | SourceConfig(err: Config.ConfigError)
    | TargetConfig(err: Config.ConfigError)
    | UnsupportedStore(store: string)
    | StorePair(sourceStore: string, targetStore: string)
    | SourceClient
    | SourceRead
    | PlainToVault
    | TargetClient
    | WriteFailed
    | SelfCopy
    | VaultCopyFailed(vaultErr: VaultCopy.CopyError)
    | AwsCopyFailed(awsErr: AwsCopy.CopyError)

  // ---------------------------------------------------------------------------------------
  // The Vault-target loop
  // ---------------------------------------------------------------------------------------

  /**
   * The value a key gets on its way into Vault: handled as JSON when JSON redaction is on and
   * the `%v` text parses, with shouldRedact as the key test and "(redacted)" members.
   */
  function CopyOf(configs: Config.Configs, codec: Codec, opts: CopyOptions, k: string, v: Json): Copied
  {
    var raw := Render(codec, v);
    CopyValue(codec, Config.ShouldRedactJSONValues(configs) && codec.parse(raw).Some?,
              j => CrossStoreCompare.RedactJSONValues(configs, j),
              CrossStoreCompare.ShouldRedact(configs, k), Config.ShouldRedactSecrets(configs), opts, raw)
  }

  /** The JSON test here is "parses", so the transform as written is the corrected one. */
  lemma CopyOfAsWritten(configs: Config.Configs, codec: Codec, opts: CopyOptions, k: string, v: Json)
    ensures var raw := Render(codec, v);
      CopyOf(configs, codec, opts, k, v)
        == CopyValueAsWritten(codec, Config.ShouldRedactJSONValues(configs) && codec.parse(raw).Some?,
                              j => CrossStoreCompare.RedactJSONValues(configs, j),
                              CrossStoreCompare.ShouldRedact(configs, k), Config.ShouldRedactSecrets(configs), opts, raw)
  {
    var raw := Render(codec, v);
    CopyValueAgreesWhenGateParses(codec, Config.ShouldRedactJSONValues(configs) && codec.parse(raw).Some?,
                                  j => CrossStoreCompare.RedactJSONValues(configs, j),
                                  CrossStoreCompare.ShouldRedact(configs, k), Config.ShouldRedactSecrets(configs), opts, raw);
  }

  function KeepKey(configs: Config.Configs, opts: CopyOptions): string -> bool
  {
    k => Keep(CrossStoreCompare.ShouldRedact(configs, k), opts)
  }

  function CopiedValues(configs: Config.Configs, codec: Codec, opts: CopyOptions, src: Doc): string -> Json
  {
    k => if k in src then JString(CopiedText(codec, CopyOf(configs, codec, opts, k, src[k]))) else JNull
  }

  /**
   * The document written to Vault: built from the source alone, with no seed from the
   * target (so nothing already present is checked or kept).
   */
  ghost function VaultDoc(configs: Config.Configs, codec: Codec, opts: CopyOptions, src: Doc): Doc
  {
    Merged(map[], src.Keys, true, KeepKey(configs, opts), CopiedValues(configs, codec, opts, src))
  }

  /**
   * The outcome of the Vault-target branch: the engine is mounted when missing, then the
   * document is put at the target path in one write.
   */
  ghost predicate WroteToVault(configs: Config.Configs, codec: Codec, opts: CopyOptions, src: Doc,
                               targetKV: string, targetPath: string, tv: VaultState,
                               tv': VaultState, err: Option<CopyFailure>)
  {
    var mounted := VaultCopy.EnsureKVEngineExists(tv, targetKV);
    var put := KvPut(mounted, At(targetKV, targetPath), VaultDoc(configs, codec, opts, src));
    && (put.Some? ==> err.None? && tv' == put.value)
    && (put.None? ==> err == Some(WriteFailed) && tv' == mounted)
  }

  /**
   * The loop over the source into a fresh map; with an empty start every key is met once,
   * so it is the merge over nothing, with no presence check.
   */
  method CopyToVault(configs: Config.Configs, codec: Codec, opts: CopyOptions, src: Doc,
                     targetKV: string, targetPath: string, tv: VaultState)
    returns (tv': VaultState, err: Option<CopyFailure>)
    ensures WroteToVault(configs, codec, opts, src, targetKV, targetPath, tv, tv', err)
  {
    var mounted := VaultCopy.EnsureKVEngineExists(tv, targetKV);
    var resultData := MergeLoop(map[], src.Keys, true, KeepKey(configs, opts), CopiedValues(configs, codec, opts, src));
    var put := KvPut(mounted, At(targetKV, targetPath), resultData);
    if put.None? {
      return mounted, Some(WriteFailed);
    }
    return put.value, None;
  }

  /**
   * What reaches Vault: exactly the source keys past the filter, each with its transformed
   * value. With redaction on and CopySecrets off no value takes the verbatim branch: it is
   * blanked or re-encoded through the JSON redactor, which can still leave it unchanged
   * (UnredactableJsonCopied, ScalarSecretCopied). Under OnlyCopyKeys every value is "" or an
   * encoded blank structure.
   */
  lemma VaultDocContents(configs: Config.Configs, codec: Codec, opts: CopyOptions, src: Doc, k: string)
    ensures var w := VaultDoc(configs, codec, opts, src);
      && (k in w <==> k in src && Keep(CrossStoreCompare.ShouldRedact(configs, k), opts))
      && (k in w ==>
            var v := CopyOf(configs, codec, opts, k, src[k]);
            && w[k] == JString(CopiedText(codec, v))
            && (Config.ShouldRedactSecrets(configs) && !opts.copySecrets ==> !v.Verbatim?)
            && (opts.onlyCopyKeys ==> v.Blanked? || (v.Encoded? && Blank(v.data))))
  {
    MergedFacts(map[], src.Keys, true, KeepKey(configs, opts), CopiedValues(configs, codec, opts, src), k);
  }

  /**
   * What VaultDocContents does not exclude: a kept key whose value parses and shows no
   * redacted member is written re-encoded and unredacted; when the encoding gives back the
   * text, Vault gets the source value.
   */
  lemma UnredactableJsonCopied(configs: Config.Configs, codec: Codec, opts: CopyOptions, src: Doc, k: string,
                               raw: string, data: Json)
    requires Config.ShouldRedactJSONValues(configs) && opts.copyConfig && !opts.onlyCopyKeys
    requires k in src && src[k] == JString(raw) && codec.parse(raw) == Some(data)
    requires Hides(data, CrossStoreCompare.RedactedBy(configs), CrossStoreCompare.Placeholder)
    requires codec.marshal(data) == raw
    ensures k in VaultDoc(configs, codec, opts, src)
    ensures VaultDoc(configs, codec, opts, src)[k] == src[k]
  {
    RedactMembersKeepsHidden(data, CrossStoreCompare.RedactedBy(configs), CrossStoreCompare.Placeholder);
    UnredactableJsonEncoded(codec, true, j => CrossStoreCompare.RedactJSONValues(configs, j),
                            CrossStoreCompare.ShouldRedact(configs, k), Config.ShouldRedactSecrets(configs),
                            opts, raw, data);
    assert CopyOf(configs, codec, opts, k, src[k]) == Encoded(data);
    VaultDocContents(configs, codec, opts, src, k);
  }

  /**
   * A scalar secret such as `"1234"` under a redacted key: with JSON redaction on it parses,
   * so it is re-encoded rather than blanked, and reaches Vault as it was.
   */
  lemma ScalarSecretCopied(configs: Config.Configs, codec: Codec, opts: CopyOptions, src: Doc, k: string,
                           raw: string, data: Json)
    requires Config.ShouldRedactSecrets(configs) && Config.ShouldRedactJSONValues(configs)
    requires opts.copyConfig && !opts.copySecrets && !opts.onlyCopyKeys
    requires k in src && src[k] == JString(raw) && codec.parse(raw) == Some(data)
    requires !IsContainer(data) && codec.marshal(data) == raw
    ensures CrossStoreCompare.ShouldRedact(configs, k)
    ensures k in VaultDoc(configs, codec, opts, src)
    ensures VaultDoc(configs, codec, opts, src)[k] == src[k]
  {
    UnredactableJsonCopied(configs, codec, opts, src, k, raw, data);
  }

  /**
   * With the default policy (redaction on) and neither CopySecrets nor CopyConfig, every key
   * is filtered out and the Put writes an empty document over whatever the target held.
   */
  lemma DefaultCopyToVaultWritesEmpty(configs: Config.Configs, codec: Codec, opts: CopyOptions, src: Doc)
    requires Config.ShouldRedactSecrets(configs) && !opts.copySecrets && !opts.copyConfig
    ensures VaultDoc(configs, codec, opts, src) == map[]
  {
    var w := VaultDoc(configs, codec, opts, src);
    forall k | k in w ensures false {
      VaultDocContents(configs, codec, opts, src, k);
    }
  }

  // ---------------------------------------------------------------------------------------
  // The two cross-store directions
  // ---------------------------------------------------------------------------------------

  /**
   * The outcome of copying a Vault source to AWS with the Vault document as the data: the
   * source is read through a Vault client for `sourceEnv` and `sourceKV`, the target needs an
   * AWS client, and the document is merged onto the target secret.
   */
  ghost predicate CopiedVaultToAws(configs: Config.Configs, codec: Codec, opts: CopyOptions,
                                   sourceEntry: Config.EnvironmentConfig, targetEntry: Config.EnvironmentConfig,
                                   sourcePath: string, targetPath: string, sourceEnv: string, sourceKV: string,
                                   sv: VaultState, ta: AwsState, ta': AwsState, err: Option<CopyFailure>)
  {
    var src := VaultClient.GetSecret(VaultClient.NewClient(sourceEntry, configs, sourceEnv, sourceKV), sv, sourcePath);
    var tc := AwsClient.NewClient(targetEntry, configs);
    && (!src.Fetched? ==> err == Some(SourceRead) && ta' == ta)
    && (src.Fetched? && tc.Failure? ==> err == Some(TargetClient) && ta' == ta)
    && (src.Fetched? && tc.Success? ==>
          && (err.None? || err.value.AwsCopyFailed?)
          && AwsCopy.CopiedData(tc.value, codec, ta, Entries(src.data), targetPath, opts, false, ta',
                                if err.None? then None else Some(err.value.awsErr)))
  }

  /** Vault to AWS, with the document read from Vault as what is copied. */
  method VaultToAws(configs: Config.Configs, codec: Codec, opts: CopyOptions,
                    sourceEntry: Config.EnvironmentConfig, targetEntry: Config.EnvironmentConfig,
                    sourcePath: string, targetPath: string, sourceEnv: string, sourceKV: string,
                    sv: VaultState, ta: AwsState)
    returns (ta': AwsState, err: Option<CopyFailure>)
    ensures CopiedVaultToAws(configs, codec, opts, sourceEntry, targetEntry, sourcePath, targetPath, sourceEnv, sourceKV,
                             sv, ta, ta', err)
  {
    var source := VaultClient.GetSecret(VaultClient.NewClient(sourceEntry, configs, sourceEnv, sourceKV), sv, sourcePath);
    if !source.Fetched? {
      return ta, Some(SourceRead);
    }
    var tc := AwsClient.NewClient(targetEntry, configs);
    if tc.Failure? {
      return ta, Some(TargetClient);
    }
    var copyErr;
    ta', copyErr := AwsCopy.CopySecretData(tc.value, codec, ta, Entries(source.data), targetPath, opts, false);
    err := if copyErr.None? then None else Some(AwsCopyFailed(copyErr.value));
  }

  /**
   * The Vault-to-AWS branch as written: after the Vault read, the AWS client's CopySecret is
   * asked to copy `sourcePath` to `targetPath`, both inside the target account, so the
   * document read from Vault is not what is copied.
   */
  method VaultToAwsAsWritten(configs: Config.Configs, codec: Codec, opts: CopyOptions,
                             sourceEntry: Config.EnvironmentConfig, targetEntry: Config.EnvironmentConfig,
                             sourcePath: string, targetPath: string, sourceEnv: string, sourceKV: string,
                             sv: VaultState, ta: AwsState)
    returns (ta': AwsState, err: Option<CopyFailure>)
    ensures var src := VaultClient.GetSecret(VaultClient.NewClient(sourceEntry, configs, sourceEnv, sourceKV), sv, sourcePath);
            var tc := AwsClient.NewClient(targetEntry, configs);
      && (!src.Fetched? ==> err == Some(SourceRead) && ta' == ta)
      && (src.Fetched? && tc.Failure? ==> err == Some(TargetClient) && ta' == ta)
      && (src.Fetched? && tc.Success? ==>
            && (err.None? || err.value.AwsCopyFailed?)
            && AwsCopy.CopiedSecret(tc.value, codec, ta, sourcePath, targetPath, opts, false, ta',
                                    if err.None? then None else Some(err.value.awsErr)))
  {
    var source := VaultClient.GetSecret(VaultClient.NewClient(sourceEntry, configs, sourceEnv, sourceKV), sv, sourcePath);
    if !source.Fetched? {
      return ta, Some(SourceRead);
    }
    var tc := AwsClient.NewClient(targetEntry, configs);
    if tc.Failure? {
      return ta, Some(TargetClient);
    }
    var copyErr;
    ta', copyErr := AwsCopy.CopySecret(tc.value, codec, ta, sourcePath, targetPath, opts, false);
    err := if copyErr.None? then None else Some(AwsCopyFailed(copyErr.value));
  }

  /**
   * As written, a Vault secret whose path does not also exist in the target AWS account is
   * never copied: the delegated copy fails on its own source read and nothing is written.
   */
  lemma AsWrittenLosesVaultSecret(c: AwsClient.Client, codec: Codec, opts: CopyOptions, ta: AwsState,
                                  sourcePath: string, targetPath: string, ta': AwsState, err: Option<AwsCopy.CopyError>)
    requires AwsClient.GetSecret(codec, ta, sourcePath).NotFound?
    requires AwsCopy.CopiedSecret(c, codec, ta, sourcePath, targetPath, opts, false, ta', err)
    ensures err == Some(AwsCopy.CopyError.SourceUnavailable(sourcePath)) && ta' == ta
  {
  }

  /**
   * With the correction, every key of the Vault document that passes the filter is in the
   * document written to AWS, holding its copied value unless the target already has it and
   * Overwrite is off.
   */
  lemma CorrectedCopiesVaultKeys(c: AwsClient.Client, codec: Codec, opts: CopyOptions, doc: Doc, target: AwsClient.Fetch, k: string)
    requires k in doc && Keep(AwsClient.IsRedactedKey(c, k), opts)
    ensures var seed := AwsCopy.Seed(target, false);
            var w := AwsCopy.CopyResult(c, codec, opts, doc, seed);
      && k in w
      && (k !in seed || opts.overwrite ==> w[k] == JString(CopiedText(codec, AwsCopy.CopyOf(c, codec, opts, k, doc[k]))))
  {
    var seed := AwsCopy.Seed(target, false);
    MergedFacts(seed, doc.Keys, opts.overwrite, AwsCopy.KeepKey(c, opts), AwsCopy.CopiedValues(c, codec, opts, doc), k);
  }

  /**
   * The outcome of copying an AWS source to Vault: the source needs an AWS client and a
   * readable secret, which must be JSON; the Vault-target loop does the rest.
   */
  ghost predicate CopiedAwsToVault(configs: Config.Configs, codec: Codec, opts: CopyOptions,
                                   sourceEntry: Config.EnvironmentConfig, sourcePath: string,
                                   targetKV: string, targetPath: string,
                                   sa: AwsState, tv: VaultState, tv': VaultState, err: Option<CopyFailure>)
  {
    var src := AwsClient.GetSecret(codec, sa, sourcePath);
    && (AwsClient.NewClient(sourceEntry, configs).Failure? ==> err == Some(SourceClient) && tv' == tv)
    && (AwsClient.NewClient(sourceEntry, configs).Success? ==>
          && (!src.Fetched? ==> err == Some(SourceRead) && tv' == tv)
          && (src.Fetched? && !src.isJSON ==> err == Some(PlainToVault) && tv' == tv)
          && (src.Fetched? && src.isJSON ==> WroteToVault(configs, codec, opts, src.data, targetKV, targetPath, tv, tv', err)))
  }

  method AwsToVault(configs: Config.Configs, codec: Codec, opts: CopyOptions,
                    sourceEntry: Config.EnvironmentConfig, sourcePath: string, targetKV: string, targetPath: string,
                    sa: AwsState, tv: VaultState)
    returns (tv': VaultState, err: Option<CopyFailure>)
    ensures CopiedAwsToVault(configs, codec, opts, sourceEntry, sourcePath, targetKV, targetPath, sa, tv, tv', err)
  {
    if AwsClient.NewClient(sourceEntry, configs).Failure? {
      return tv, Some(SourceClient);
    }
    var source := AwsClient.GetSecret(codec, sa, sourcePath);
    if !source.Fetched? {
      return tv, Some(SourceRead);
    }
    if !source.isJSON {
      return tv, Some(PlainToVault);
    }
    tv', err := CopyToVault(configs, codec, opts, source.data, targetKV, targetPath, tv);
  }

  // ---------------------------------------------------------------------------------------
  // Copies within one kind of store
  // ---------------------------------------------------------------------------------------

  /**
   * The outcome of copyWithinVault: the target engine is mounted first; the source must be
   * readable through a client of its own; a copy onto the same path, environment and URL is
   * refused; then the target instance runs its own CopySecret from `sourcePath`.
   */
  ghost predicate CopiedWithinVault(configs: Config.Configs, codec: Codec, opts: CopyOptions,
                                    sourceEntry: Config.EnvironmentConfig, targetEntry: Config.EnvironmentConfig,
                                    sourcePath: string, targetPath: string, sourceEnv: string, targetEnv: string,
                                    sourceKV: string, targetKV: string,
                                    sv: VaultState, tv: VaultState, r: Result<CopyResult, CopyFailure>, tv': VaultState)
  {
    var sc := VaultClient.NewClient(sourceEntry, configs, sourceEnv, sourceKV);
    var tc := VaultClient.NewClient(targetEntry, configs, targetEnv, targetKV);
    var mounted := VaultCopy.EnsureKVEngineExists(tv, targetKV);
    var readable := VaultClient.GetSecret(sc, sv, sourcePath).Fetched?;
    var same := sourcePath == targetPath && sourceEnv == targetEnv && sourceEntry.url == targetEntry.url;
    && (!readable ==> r == Failure(SourceRead) && tv' == mounted)
    && (readable && same ==> r == Failure(SelfCopy) && tv' == mounted)
    && (readable && !same ==>
          && (r.Success? ==>
                && VaultCopy.CopiedSecret(tc, codec, mounted, sourcePath, targetPath, opts, tv', None)
                && r.value == CopyResult(sourcePath, targetPath, sourceEnv, targetEnv, "", "",
                                         Config.VaultStore, Config.VaultStore, true, SuccessMessage(sourcePath, targetPath)))
          && (r.Failure? ==>
                && r.error.VaultCopyFailed?
                && VaultCopy.CopiedSecret(tc, codec, mounted, sourcePath, targetPath, opts, tv', Some(r.error.vaultErr))))
  }

  method CopyWithinVault(configs: Config.Configs, codec: Codec, opts: CopyOptions,
                         sourceEntry: Config.EnvironmentConfig, targetEntry: Config.EnvironmentConfig,
                         sourcePath: string, targetPath: string, sourceEnv: string, targetEnv: string,
                         sourceKV: string, targetKV: string, sv: VaultState, tv: VaultState)
    returns (r: Result<CopyResult, CopyFailure>, tv': VaultState)
    ensures CopiedWithinVault(configs, codec, opts, sourceEntry, targetEntry, sourcePath, targetPath, sourceEnv, targetEnv,
                              sourceKV, targetKV, sv, tv, r, tv')
  {
    var sc := VaultClient.NewClient(sourceEntry, configs, sourceEnv, sourceKV);
    var tc := VaultClient.NewClient(targetEntry, configs, targetEnv, targetKV);
    var mounted := VaultCopy.EnsureKVEngineExists(tv, targetKV);
    if !VaultClient.GetSecret(sc, sv, sourcePath).Fetched? {
      return Failure(SourceRead), mounted;
    }
    if sourcePath == targetPath && sourceEnv == targetEnv && sourceEntry.url == targetEntry.url {
      return Failure(SelfCopy), mounted;
    }
    var err;
    tv', err := VaultCopy.CopySecret(tc, codec, mounted, sourcePath, targetPath, opts);
    if err.Some? {
      return Failure(VaultCopyFailed(err.value)), tv';
    }
    r := Success(CopyResult(sourcePath, targetPath, sourceEnv, targetEnv, "", "",
                            Config.VaultStore, Config.VaultStore, true, SuccessMessage(sourcePath, targetPath)));
  }

  /**
   * The outcome of copyWithinAWS: both entries need a client, the source must be readable in
   * its own account, a copy onto the same path and role is refused; then the target account
   * runs its own CopySecret from `sourcePath`, without Prune.
   */
  ghost predicate CopiedWithinAws(configs: Config.Configs, codec: Codec, opts: CopyOptions,
                                  sourceEntry: Config.EnvironmentConfig, targetEntry: Config.EnvironmentConfig,
                                  sourcePath: string, targetPath: string,
                                  sa: AwsState, ta: AwsState, r: Result<CopyResult, CopyFailure>, ta': AwsState)
  {
    var sc := AwsClient.NewClient(sourceEntry, configs);
    var tc := AwsClient.NewClient(targetEntry, configs);
    var readable := AwsClient.GetSecret(codec, sa, sourcePath).Fetched?;
    var same := sourcePath == targetPath && sourceEntry.role == targetEntry.role;
    && (sc.Failure? ==> r == Failure(SourceClient) && ta' == ta)
    && (sc.Success? && !readable ==> r == Failure(SourceRead) && ta' == ta)
    && (sc.Success? && readable && tc.Failure? ==> r == Failure(TargetClient) && ta' == ta)
    && (sc.Success? && readable && tc.Success? && same ==> r == Failure(SelfCopy) && ta' == ta)
    && (sc.Success? && readable && tc.Success? && !same ==>
          && (r.Success? ==>
                && AwsCopy.CopiedSecret(tc.value, codec, ta, sourcePath, targetPath, opts, false, ta', None)
                && r.value == CopyResult(sourcePath, targetPath, "", "", "", "",
                                         Config.AwsStore, Config.AwsStore, true, SuccessMessage(sourcePath, targetPath)))
          && (r.Failure? ==>
                && r.error.AwsCopyFailed?
                && AwsCopy.CopiedSecret(tc.value, codec, ta, sourcePath, targetPath, opts, false, ta', Some(r.error.awsErr))))
  }

  method CopyWithinAws(configs: Config.Configs, codec: Codec, opts: CopyOptions,
                       sourceEntry: Config.EnvironmentConfig, targetEntry: Config.EnvironmentConfig,
                       sourcePath: string, targetPath: string, sa: AwsState, ta: AwsState)
    returns (r: Result<CopyResult, CopyFailure>, ta': AwsState)
    ensures CopiedWithinAws(configs, codec, opts, sourceEntry, targetEntry, sourcePath, targetPath, sa, ta, r, ta')
  {
    var sc := AwsClient.NewClient(sourceEntry, configs);
    if sc.Failure? {
      return Failure(SourceClient), ta;
    }
    if !AwsClient.GetSecret(codec, sa, sourcePath).Fetched? {
      return Failure(SourceRead), ta;
    }
    var tc := AwsClient.NewClient(targetEntry, configs);
    if tc.Failure? {
      return Failure(TargetClient), ta;
    }
    if sourcePath == targetPath && sourceEntry.role == targetEntry.role {
      return Failure(SelfCopy), ta;
    }
    var err;
    ta', err := AwsCopy.CopySecret(tc.value, codec, ta, sourcePath, targetPath, opts, false);
    if err.Some? {
      return Failure(AwsCopyFailed(err.value)), ta';
    }
    r := Success(CopyResult(sourcePath, targetPath, "", "", "", "",
                            Config.AwsStore, Config.AwsStore, true, SuccessMessage(sourcePath, targetPath)));
  }

  // ---------------------------------------------------------------------------------------
  // CopyVaultWithAWS
  // ---------------------------------------------------------------------------------------

  /** The result of a successful cross-store copy, every field filled in. */
  function CrossResult(sourceInstanceName: string, targetInstanceName: string, sourcePath: string, targetPath: string,
                       sourceEnv: string, targetEnv: string, sourceStore: string, targetStore: string): CopyResult
  {
    CopyResult(sourcePath, targetPath, sourceEnv, targetEnv, sourceInstanceName, targetInstanceName,
               sourceStore, targetStore, true, SuccessMessage(sourcePath, targetPath))
  }

  /**
   * CopyVaultWithAWS: both entries are looked up; two entries of the same store kind go to
   * that kind's own copy; a Vault/AWS pair is copied across; anything else is refused. Only
   * the target side's stores can change.
   */
  method CopyVaultWithAWS(codec: Codec, configs: Config.Configs, source: Instances, target: Instances,
                          sourceInstanceName: string, targetInstanceName: string, sourcePath: string, targetPath: string,
                          sourceEnv: string, targetEnv: string, sourceKV: string, targetKV: string, opts: CopyOptions)
    returns (r: Result<CopyResult, CopyFailure>, target': Instances)
    ensures var sourceConfig := Config.GetEnvironmentConfigWithAws(configs, sourceInstanceName);
            var targetConfig := Config.GetEnvironmentConfigWithAws(configs, targetInstanceName);
      && (sourceConfig.Failure? ==> r == Failure(SourceConfig(sourceConfig.error)) && target' == target)
      && (sourceConfig.Success? && targetConfig.Failure? ==> r == Failure(TargetConfig(targetConfig.error)) && target' == target)
      && (sourceConfig.Success? && targetConfig.Success? ==>
            var se := sourceConfig.value;
            var te := targetConfig.value;
            && (se.store == te.store == Config.VaultStore ==>
                  && target'.aws == target.aws
                  && CopiedWithinVault(configs, codec, opts, se, te, sourcePath, targetPath, sourceEnv, targetEnv,
                                       sourceKV, targetKV, source.vault, target.vault, r, target'.vault))
            && (se.store == te.store == Config.AwsStore ==>
                  && target'.vault == target.vault
                  && CopiedWithinAws(configs, codec, opts, se, te, sourcePath, targetPath, source.aws, target.aws, r, target'.aws))
            && (se.store == te.store && se.store != Config.VaultStore && se.store != Config.AwsStore ==>
                  r == Failure(UnsupportedStore(se.store)) && target' == target)
            && (se.store != te.store && !CrossStoreCompare.SupportedPair(se.store, te.store) ==>
                  r == Failure(StorePair(se.store, te.store)) && target' == target)
            && (CrossStoreCompare.SupportedPair(se.store, te.store) ==>
                  && (r.Success? ==> r.value == CrossResult(sourceInstanceName, targetInstanceName, sourcePath, targetPath,
                                                            sourceEnv, targetEnv, se.store, te.store))
                  && var err := if r.Success? then None else Some(r.error);
                  && (se.store == Config.VaultStore ==>
                        && target'.vault == target.vault
                        && CopiedVaultToAws(configs, codec, opts, se, te, sourcePath, targetPath, sourceEnv, sourceKV,
                                            source.vault, target.aws, target'.aws, err))
                  && (se.store == Config.AwsStore ==>
                        && target'.aws == target.aws
                        && CopiedAwsToVault(configs, codec, opts, se, sourcePath, targetKV, targetPath,
                                            source.aws, target.vault, target'.vault, err))))
  {
    var sourceConfig := Config.GetEnvironmentConfigWithAws(configs, sourceInstanceName);
    if sourceConfig.Failure? {
      return Failure(SourceConfig(sourceConfig.error)), target;
    }
    var targetConfig := Config.GetEnvironmentConfigWithAws(configs, targetInstanceName);
    if targetConfig.Failure? {
      return Failure(TargetConfig(targetConfig.error)), target;
    }
    var se, te := sourceConfig.value, targetConfig.value;

    if !CrossStoreCompare.SupportedPair(se.store, te.store) {
      if se.store == te.store {
        if se.store == Config.VaultStore {
          var tv';
          r, tv' := CopyWithinVault(configs, codec, opts, se, te, sourcePath, targetPath, sourceEnv, targetEnv,
                                    sourceKV, targetKV, source.vault, target.vault);
          return r, target.(vault := tv');
        } else if se.store == Config.AwsStore {
          var ta';
          r, ta' := CopyWithinAws(configs, codec, opts, se, te, sourcePath, targetPath, source.aws, target.aws);
          return r, target.(aws := ta');
        }
        return Failure(UnsupportedStore(se.store)), target;
      }
      return Failure(StorePair(se.store, te.store)), target;
    }

    var err: Option<CopyFailure>;
    if se.store == Config.VaultStore {
      var ta';
      ta', err := VaultToAws(configs, codec, opts, se, te, sourcePath, targetPath, sourceEnv, sourceKV, source.vault, target.aws);
      target' := target.(aws := ta');
    } else {
      var tv';
      tv', err := AwsToVault(configs, codec, opts, se, sourcePath, targetKV, targetPath, source.aws, target.vault);
      target' := target.(vault := tv');
    }
    if err.Some? {
      return Failure(err.value), target';
    }
    r := Success(CrossResult(sourceInstanceName, targetInstanceName, sourcePath, targetPath,
                             sourceEnv, targetEnv, se.store, te.store));
  }
}
