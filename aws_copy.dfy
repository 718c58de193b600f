/**
 * pkg/awssecretsmanager/copy.go: copying one secret onto another (CopySecret) and writing an
 * in-memory document onto a secret (CopySecretData), each ending in one Update or Create.
 */
module AwsCopy {
  import opened Wrappers
  import opened Json
  import opened AwsApi
  import opened AwsClient
  import opened CopyEngine

  /** The value a copied key gets: its `%v` text, handled as JSON when it parses. */
  function CopyOf(c: Client, codec: Codec, opts: CopyOptions, k: string, v: Json): Copied
  {
    var raw := Render(codec, v);
    CopyValue(codec, c.redactJSONVals && IsJSONValue(codec, raw), j => RedactJSONValues(c, j),
              IsRedactedKey(c, k), c.redactSecrets, opts, raw)
  }

  /** Here the JSON test is "parses", so the corrected transform is the one the file runs. */
  lemma CopyOfAsWritten(c: Client, codec: Codec, opts: CopyOptions, k: string, v: Json)
    ensures var raw := Render(codec, v);
      CopyOf(c, codec, opts, k, v)
        == CopyValueAsWritten(codec, c.redactJSONVals && IsJSONValue(codec, raw), j => RedactJSONValues(c, j),
                              IsRedactedKey(c, k), c.redactSecrets, opts, raw)
  {
    var raw := Render(codec, v);
    CopyValueAgreesWhenGateParses(codec, c.redactJSONVals && IsJSONValue(codec, raw), j => RedactJSONValues(c, j),
                                  IsRedactedKey(c, k), c.redactSecrets, opts, raw);
  }

  function KeepKey(c: Client, opts: CopyOptions): string -> bool
  {
    k => Keep(IsRedactedKey(c, k), opts)
  }

  function CopiedValues(c: Client, codec: Codec, opts: CopyOptions, src: Doc): string -> Json
  {
    k => if k in src then JString(CopiedText(codec, CopyOf(c, codec, opts, k, src[k]))) else JNull
  }

  /** The target's keys are kept only when it exists, is a JSON secret and Prune is off. */
  function Seed(target: Fetch, prune: bool): (seed: Doc)
    ensures target.Fetched? && target.isJSON && !prune ==> seed == target.data
    ensures !(target.Fetched? && target.isJSON && !prune) ==> seed == map[]
  {
    if target.Fetched? && target.isJSON && !prune then target.data else map[]
  }

  /** The document a JSON copy writes. */
  ghost function CopyResult(c: Client, codec: Codec, opts: CopyOptions, src: Doc, seed: Doc): Doc
  {
    Merged(seed, src.Keys, opts.overwrite, KeepKey(c, opts), CopiedValues(c, codec, opts, src))
  }

  /** A plain secret's text, blanked when redaction is on and CopySecrets is off. */
  function PlainCopy(c: Client, opts: CopyOptions, value: string): (r: string)
    ensures c.redactSecrets && !opts.copySecrets ==> r == ""
    ensures !(c.redactSecrets && !opts.copySecrets) ==> r == value
  {
    if c.redactSecrets && !opts.copySecrets then "" else value
  }

  /** UpdateSecret on an existing target, CreateSecret otherwise. */
  function Store(s: AwsState, targetPath: string, targetExists: bool, text: string): (r: Option<AwsState>)
    ensures targetExists ==> r == UpdateSecret(s, targetPath, text)
    ensures !targetExists ==> r == CreateSecret(s, targetPath, text)
  {
    if targetExists then UpdateSecret(s, targetPath, text) else CreateSecret(s, targetPath, text)
  }

  datatype CopyError = SourceUnavailable(path: string) | TargetUnavailable(path: string) | WriteFailed(path: string)

  /**
   * The merge-and-write both copy operations end with: the seed, each kept source key over
   * it, the whole document encoded and stored once.
   */
  method WriteMerged(c: Client, codec: Codec, s: AwsState, src: Doc, targetPath: string, target: Fetch,
                     opts: CopyOptions, prune: bool)
    returns (s': AwsState, err: Option<CopyError>)
    ensures var put := Store(s, targetPath, target.Fetched?,
                             codec.marshal(JObject(CopyResult(c, codec, opts, src, Seed(target, prune)))));
      && (put.Some? ==> err.None? && s' == put.value)
      && (put.None? ==> err == Some(WriteFailed(targetPath)) && s' == s)
  {
    var resultData := Seed(target, prune);
    resultData := MergeLoop(resultData, src.Keys, opts.overwrite, KeepKey(c, opts), CopiedValues(c, codec, opts, src));
    var put := Store(s, targetPath, target.Fetched?, codec.marshal(JObject(resultData)));
    if put.None? {
      return s, Some(WriteFailed(targetPath));
    }
    return put.value, None;
  }

  /**
   * The outcome of CopySecret: the source must be a readable string secret; a missing target
   * is created, any other target failure aborts. A plain source is copied as one (possibly
   * blanked) string; a JSON source is merged.
   */
  ghost predicate CopiedSecret(c: Client, codec: Codec, s: AwsState, sourcePath: string, targetPath: string,
                               opts: CopyOptions, prune: bool, s': AwsState, err: Option<CopyError>)
  {
    var src := GetSecret(codec, s, sourcePath);
    var tgt := GetSecret(codec, s, targetPath);
    && (!src.Fetched? ==> err == Some(CopyError.SourceUnavailable(sourcePath)) && s' == s)
    && (src.Fetched? && !(tgt.Fetched? || tgt.NotFound?) ==>
          err == Some(CopyError.TargetUnavailable(targetPath)) && s' == s)
    && (src.Fetched? && (tgt.Fetched? || tgt.NotFound?) ==>
          var text := if src.isJSON
            then codec.marshal(JObject(CopyResult(c, codec, opts, src.data, Seed(tgt, prune))))
            else PlainCopy(c, opts, s.secrets[sourcePath].s);
          var put := Store(s, targetPath, tgt.Fetched?, text);
          && (put.Some? ==> err.None? && s' == put.value)
          && (put.None? ==> err == Some(WriteFailed(targetPath)) && s' == s))
  }

  /**
   * CopySecret: the source must be readable; a missing target is created, any other
   * target failure aborts.
   */
  method CopySecret(c: Client, codec: Codec, s: AwsState, sourcePath: string, targetPath: string,
                    opts: CopyOptions, prune: bool)
    returns (s': AwsState, err: Option<CopyError>)
    ensures CopiedSecret(c, codec, s, sourcePath, targetPath, opts, prune, s', err)
  {
    var source := GetSecret(codec, s, sourcePath);
    if !source.Fetched? {
      return s, Some(CopyError.SourceUnavailable(sourcePath));
    }
    var target := GetSecret(codec, s, targetPath);
    if !target.Fetched? && !target.NotFound? {
      return s, Some(CopyError.TargetUnavailable(targetPath));
    }

    if !source.isJSON {
      DetectPlainRoundTrip(codec, s.secrets[sourcePath].s);
      s', err := WritePlain(c, s, targetPath, target.Fetched?, opts, Render(codec, source.data["value"]));
      return;
    }

    s', err := WriteMerged(c, codec, s, source.data, targetPath, target, opts, prune);
  }

  /** The plain-secret branch of CopySecret: the text, blanked when redaction says so, stored once. */
  method WritePlain(c: Client, s: AwsState, targetPath: string, targetExists: bool, opts: CopyOptions, value: string)
    returns (s': AwsState, err: Option<CopyError>)
    ensures var put := Store(s, targetPath, targetExists, PlainCopy(c, opts, value));
      && (put.Some? ==> err.None? && s' == put.value)
      && (put.None? ==> err == Some(WriteFailed(targetPath)) && s' == s)
  {
    var valueStr := value;
    if c.redactSecrets && !opts.copySecrets {
      valueStr := "";
    }
    var put := Store(s, targetPath, targetExists, valueStr);
    if put.None? {
      return s, Some(WriteFailed(targetPath));
    }
    return put.value, None;
  }

  /**
   * CopySecretData: the same merge with an in-memory document as the source; a missing
   * target is created.
   */
  ghost predicate CopiedData(c: Client, codec: Codec, s: AwsState, data: Doc, targetPath: string,
                             opts: CopyOptions, prune: bool, s': AwsState, err: Option<CopyError>)
  {
    var tgt := GetSecret(codec, s, targetPath);
    && (!(tgt.Fetched? || tgt.NotFound?) ==> err == Some(CopyError.TargetUnavailable(targetPath)) && s' == s)
    && (tgt.Fetched? || tgt.NotFound? ==>
          var put := Store(s, targetPath, tgt.Fetched?,
                           codec.marshal(JObject(CopyResult(c, codec, opts, data, Seed(tgt, prune)))));
          && (put.Some? ==> err.None? && s' == put.value)
          && (put.None? ==> err == Some(WriteFailed(targetPath)) && s' == s))
  }

  method CopySecretData(c: Client, codec: Codec, s: AwsState, data: Doc, targetPath: string,
                        opts: CopyOptions, prune: bool)
    returns (s': AwsState, err: Option<CopyError>)
    ensures CopiedData(c, codec, s, data, targetPath, opts, prune, s', err)
  {
    var target := GetSecret(codec, s, targetPath);
    if !target.Fetched? && !target.NotFound? {
      return s, Some(CopyError.TargetUnavailable(targetPath));
    }
    s', err := WriteMerged(c, codec, s, data, targetPath, target, opts, prune);
  }

  /**
   * What a JSON copy writes: without Prune every key of an existing JSON target stays, and
   * without Overwrite keeps its value; with Prune only source keys are written.
   */
  lemma CopyResultKeepsTarget(c: Client, codec: Codec, opts: CopyOptions, src: Doc, target: Fetch, prune: bool, k: string)
    ensures var w := CopyResult(c, codec, opts, src, Seed(target, prune));
      && (target.Fetched? && target.isJSON && !prune && k in target.data ==> k in w)
      && (target.Fetched? && target.isJSON && !prune && k in target.data && !opts.overwrite ==> w[k] == target.data[k])
      && (prune && k in w ==> k in src && Keep(IsRedactedKey(c, k), opts))
  {
    MergedFacts(Seed(target, prune), src.Keys, opts.overwrite, KeepKey(c, opts), CopiedValues(c, codec, opts, src), k);
  }

  /**
   * A kept key's written value is its copied text. With redaction on and CopySecrets off
   * (every key is then redacted) no value takes the verbatim branch: it is blanked or
   * re-encoded through the JSON redactor, which can still leave it unchanged
   * (UnredactableJsonCopied, ScalarSecretCopied). Under OnlyCopyKeys every copied value is
   * "" or an encoded blank structure.
   */
  lemma CopyResultHidesValues(c: Client, codec: Codec, opts: CopyOptions, src: Doc, seed: Doc, k: string)
    requires k in src && Takes(seed, src.Keys, opts.overwrite, KeepKey(c, opts), k)
    ensures var w := CopyResult(c, codec, opts, src, seed);
            var v := CopyOf(c, codec, opts, k, src[k]);
      && k in w && w[k] == JString(CopiedText(codec, v))
      && (c.redactSecrets && !opts.copySecrets ==> !v.Verbatim?)
      && (opts.onlyCopyKeys ==> v.Blanked? || (v.Encoded? && Blank(v.data)))
  {
    MergedFacts(seed, src.Keys, opts.overwrite, KeepKey(c, opts), CopiedValues(c, codec, opts, src), k);
  }

  /**
   * What CopyResultHidesValues does not exclude: since any value that parses counts as
   * JSON, a kept key whose value parses and shows no redacted member is written re-encoded
   * and unredacted, redaction flags notwithstanding; when the encoding gives back the text,
   * the target gets the source value.
   */
  lemma UnredactableJsonCopied(c: Client, codec: Codec, opts: CopyOptions, src: Doc, seed: Doc, k: string,
                               raw: string, data: Json)
    requires c.redactJSONVals && opts.copyConfig && !opts.onlyCopyKeys
    requires k in src && src[k] == JString(raw) && codec.parse(raw) == Some(data)
    requires Hides(data, RedactedBy(c), Placeholder) && codec.marshal(data) == raw
    requires k !in seed || opts.overwrite
    ensures k in CopyResult(c, codec, opts, src, seed)
    ensures CopyResult(c, codec, opts, src, seed)[k] == src[k]
  {
    RedactMembersKeepsHidden(data, RedactedBy(c), Placeholder);
    UnredactableJsonEncoded(codec, true, j => RedactJSONValues(c, j), IsRedactedKey(c, k), c.redactSecrets,
                            opts, raw, data);
    assert CopyOf(c, codec, opts, k, src[k]) == Encoded(data);
    assert KeepKey(c, opts)(k);
    CopyResultHidesValues(c, codec, opts, src, seed, k);
  }

  /**
   * A scalar secret such as `"1234"` under a redacted key: with JSON redaction on it parses,
   * so it is re-encoded rather than blanked, and reaches the target as it was.
   */
  lemma ScalarSecretCopied(c: Client, codec: Codec, opts: CopyOptions, src: Doc, seed: Doc, k: string,
                           raw: string, data: Json)
    requires c.redactSecrets && c.redactJSONVals && opts.copyConfig && !opts.copySecrets && !opts.onlyCopyKeys
    requires k in src && src[k] == JString(raw) && codec.parse(raw) == Some(data)
    requires !IsContainer(data) && codec.marshal(data) == raw
    requires k !in seed || opts.overwrite
    ensures IsRedactedKey(c, k)
    ensures k in CopyResult(c, codec, opts, src, seed)
    ensures CopyResult(c, codec, opts, src, seed)[k] == src[k]
  {
    UnredactableJsonCopied(c, codec, opts, src, seed, k, raw, data);
  }

  /** Redaction on, neither CopySecrets nor CopyConfig: a JSON copy adds no source key at all. */
  lemma DefaultCopyAddsNothing(c: Client, codec: Codec, opts: CopyOptions, src: Doc, seed: Doc)
    requires c.redactSecrets && !opts.copySecrets && !opts.copyConfig
    ensures CopyResult(c, codec, opts, src, seed) == seed
  {
    var w := CopyResult(c, codec, opts, src, seed);
    forall k ensures (k in w <==> k in seed) && (k in w ==> w[k] == seed[k]) {
      MergedFacts(seed, src.Keys, opts.overwrite, KeepKey(c, opts), CopiedValues(c, codec, opts, src), k);
    }
  }
}
