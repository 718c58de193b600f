/**
 * pkg/vault/copy.go: creating the KV engine on demand, and copying one secret onto another
 * path of the same engine, merged over what the target already holds.
 */
module VaultCopy {
  import opened Wrappers
  import opened Text
  import opened Json
  import opened VaultApi
  import opened VaultClient
  import opened CopyEngine

  /**
   * EnsureKVEngineExists: the engine's mount path, with its "/", is mounted as kv v2 when
   * ListMounts does not report it; an existing mount is left alone.
   */
  function EnsureKVEngineExists(s: VaultState, kvEngine: string): (r: VaultState)
    ensures r.mounts == s.mounts + {MountPath(kvEngine)}
    ensures MountPath(kvEngine) in s.mounts ==> r == s
    ensures r.secrets == s.secrets && r.unreadable == s.unreadable && r.unwritable == s.unwritable
  {
    if MountPath(kvEngine) in s.mounts then s else Mount(s, MountPath(kvEngine))
  }

  lemma EnsureKVEngineExistsIdempotent(s: VaultState, kvEngine: string)
    ensures EnsureKVEngineExists(EnsureKVEngineExists(s, kvEngine), kvEngine) == EnsureKVEngineExists(s, kvEngine)
  {
  }

  /** The Vault client's JSON redactor (JSON redaction is on whenever the copy uses it). */
  function Redactor(c: Client): Json -> Json
  {
    j => RedactJSONValues(c, j)
  }

  /** The value a copied key gets: the `%v` text, treated as JSON when it looks bracketed. */
  function CopyOf(c: Client, codec: Codec, opts: CopyOptions, k: string, v: Json): Copied
  {
    var raw := Render(codec, v);
    CopyValue(codec, c.redactJSONVals && IsJSONValue(raw), Redactor(c), IsRedactedKey(c, k), c.redactSecrets, opts, raw)
  }

  function KeepKey(c: Client, opts: CopyOptions): string -> bool
  {
    k => Keep(IsRedactedKey(c, k), opts)
  }

  /** Every copied value is stored as a string. */
  function CopiedValues(c: Client, codec: Codec, opts: CopyOptions, src: Doc): string -> Json
  {
    k => if k in src then JString(CopiedText(codec, CopyOf(c, codec, opts, k, src[k]))) else JNull
  }

  /** The document CopySecret writes. */
  ghost function CopyResult(c: Client, codec: Codec, opts: CopyOptions, src: Doc, seed: Doc): Doc
  {
    Merged(seed, src.Keys, opts.overwrite, KeepKey(c, opts), CopiedValues(c, codec, opts, src))
  }

  datatype CopyError = SourceUnavailable(path: string) | TargetUnavailable(path: string) | WriteFailed(path: string)

  /**
   * The outcome of CopySecret for the state `s`: the new state `s'` and the error `err`.
   */
  ghost predicate CopiedSecret(c: Client, codec: Codec, s: VaultState, sourcePath: string, targetPath: string,
                               opts: CopyOptions, s': VaultState, err: Option<CopyError>)
  {
    var src := GetSecret(c, s, sourcePath);
    var tgt := GetSecret(c, s, targetPath);
    && (!src.Fetched? ==> err == Some(CopyError.SourceUnavailable(sourcePath)) && s' == s)
    && (src.Fetched? && !Usable(tgt) ==> err == Some(CopyError.TargetUnavailable(targetPath)) && s' == s)
    && (src.Fetched? && Usable(tgt) ==>
          var seed := if tgt.Fetched? then Entries(tgt.data) else map[];
          var put := KvPut(s, At(c.kvEngine, targetPath), CopyResult(c, codec, opts, Entries(src.data), seed));
          && (put.Some? ==> err.None? && s' == put.value)
          && (put.None? ==> err == Some(WriteFailed(targetPath)) && s' == s))
  }

  /**
   * CopySecret: the source must be readable; a missing target counts as empty, any other
   * target failure aborts; the merged document is written to the target in one Put.
   */
  method CopySecret(c: Client, codec: Codec, s: VaultState, sourcePath: string, targetPath: string, opts: CopyOptions)
    returns (s': VaultState, err: Option<CopyError>)
    ensures CopiedSecret(c, codec, s, sourcePath, targetPath, opts, s', err)
  {
    var source := GetSecret(c, s, sourcePath);
    if !source.Fetched? {
      return s, Some(CopyError.SourceUnavailable(sourcePath));
    }
    var target := GetSecret(c, s, targetPath);
    var targetExists := true;
    var targetData: Doc := map[];
    if target.NotFound? {
      targetExists := false;
    } else if !target.Fetched? {
      return s, Some(CopyError.TargetUnavailable(targetPath));
    } else {
      targetData := Entries(target.data);
    }

    var resultData: Doc := map[];
    if targetExists {
      resultData := targetData;
    }
    var src := Entries(source.data);
    resultData := MergeLoop(resultData, src.Keys, opts.overwrite, KeepKey(c, opts), CopiedValues(c, codec, opts, src));

    var put := KvPut(s, At(c.kvEngine, targetPath), resultData);
    if put.None? {
      return s, Some(WriteFailed(targetPath));
    }
    return put.value, None;
  }

  /**
   * What CopySecret writes keeps every target key; without Overwrite it keeps every target
   * value; a source key the filter drops is not added.
   */
  lemma CopyResultKeepsTarget(c: Client, codec: Codec, opts: CopyOptions, src: Doc, seed: Doc, k: string)
    ensures var w := CopyResult(c, codec, opts, src, seed);
      && (k in seed ==> k in w)
      && (k in seed && !opts.overwrite ==> w[k] == seed[k])
      && (k !in seed && k in src && !Keep(IsRedactedKey(c, k), opts) ==> k !in w)
  {
    MergedFacts(seed, src.Keys, opts.overwrite, KeepKey(c, opts), CopiedValues(c, codec, opts, src), k);
  }

  /**
   * A kept key's written value is its copied text. A redacted key copied without CopySecrets
   * never takes the verbatim branch: it is blanked or re-encoded through the JSON redactor,
   * which can still leave it unchanged (UnredactableJsonCopied). Under OnlyCopyKeys every
   * copied value is "" or the encoding of a structure whose scalars are all "".
   */
  lemma CopyResultHidesValues(c: Client, codec: Codec, opts: CopyOptions, src: Doc, seed: Doc, k: string)
    requires k in src && Takes(seed, src.Keys, opts.overwrite, KeepKey(c, opts), k)
    ensures var w := CopyResult(c, codec, opts, src, seed);
            var v := CopyOf(c, codec, opts, k, src[k]);
      && k in w && w[k] == JString(CopiedText(codec, v))
      && (IsRedactedKey(c, k) && !opts.copySecrets ==> !v.Verbatim?)
      && (opts.onlyCopyKeys ==> v.Blanked? || (v.Encoded? && Blank(v.data)))
  {
    MergedFacts(seed, src.Keys, opts.overwrite, KeepKey(c, opts), CopiedValues(c, codec, opts, src), k);
  }

  /**
   * What CopyResultHidesValues does not exclude: a kept key whose bracketed value parses and
   * shows no redacted member is written re-encoded and unredacted, whatever the key and the
   * redaction flags; when the encoding gives back the text, the target gets the source value.
   */
  lemma UnredactableJsonCopied(c: Client, codec: Codec, opts: CopyOptions, src: Doc, seed: Doc, k: string,
                               raw: string, data: Json)
    requires c.redactJSONVals && opts.copyConfig && !opts.onlyCopyKeys
    requires k in src && src[k] == JString(raw) && IsJSONValue(raw) && codec.parse(raw) == Some(data)
    requires Hides(data, RedactedBy(c), Placeholder) && codec.marshal(data) == raw
    requires k !in seed || opts.overwrite
    ensures k in CopyResult(c, codec, opts, src, seed)
    ensures CopyResult(c, codec, opts, src, seed)[k] == src[k]
  {
    RedactMembersKeepsHidden(data, RedactedBy(c), Placeholder);
    UnredactableJsonEncoded(codec, true, Redactor(c), IsRedactedKey(c, k), c.redactSecrets, opts, raw, data);
    assert CopyOf(c, codec, opts, k, src[k]) == Encoded(data);
    assert KeepKey(c, opts)(k);
    CopyResultHidesValues(c, codec, opts, src, seed, k);
  }

  /** Text with a bracket at each end passes the JSON test whether or not it parses. */
  lemma BracketedPassesJsonTest()
    ensures IsJSONValue("{oops}")
  {
    assert LeadingSpace("{oops}") == 0;
    assert TrailingSpace("{oops}") == 0;
  }

  /** The value a copied key gets as pkg/vault/copy.go writes it: the bracket test alone picks JSON. */
  function CopyOfAsWritten(c: Client, codec: Codec, opts: CopyOptions, k: string, v: Json): Copied
  {
    var raw := Render(codec, v);
    CopyValueAsWritten(codec, c.redactJSONVals && IsJSONValue(raw), Redactor(c), IsRedactedKey(c, k), c.redactSecrets, opts, raw)
  }

  /** The document CopySecret writes as pkg/vault/copy.go computes it. */
  ghost function CopyResultAsWritten(c: Client, codec: Codec, opts: CopyOptions, src: Doc, seed: Doc): Doc
  {
    Merged(seed, src.Keys, opts.overwrite, KeepKey(c, opts), CopiedValuesAsWritten(c, codec, opts, src))
  }

  function CopiedValuesAsWritten(c: Client, codec: Codec, opts: CopyOptions, src: Doc): string -> Json
  {
    k => if k in src then JString(CopiedText(codec, CopyOfAsWritten(c, codec, opts, k, src[k]))) else JNull
  }

  /** A key the as-written copy takes holds its as-written copied value. */
  lemma CopyResultAsWrittenTakes(c: Client, codec: Codec, opts: CopyOptions, src: Doc, seed: Doc, k: string)
    requires k in src && Takes(seed, src.Keys, opts.overwrite, KeepKey(c, opts), k)
    ensures k in CopyResultAsWritten(c, codec, opts, src, seed)
    ensures CopyResultAsWritten(c, codec, opts, src, seed)[k] ==
            JString(CopiedText(codec, CopyOfAsWritten(c, codec, opts, k, src[k])))
  {
    MergedFacts(seed, src.Keys, opts.overwrite, KeepKey(c, opts), CopiedValuesAsWritten(c, codec, opts, src), k);
  }

  /**
   * As written, a redacted key kept by `--copy-config` without `--copy-secrets`, whose value
   * passes the bracket test but does not parse, reaches the target verbatim.
   */
  lemma MalformedJsonCopiedAsWritten(c: Client, codec: Codec, opts: CopyOptions, src: Doc, seed: Doc, k: string,
                                     raw: string)
    requires c.redactJSONVals && opts.copyConfig && !opts.copySecrets && IsRedactedKey(c, k)
    requires k in src && src[k] == JString(raw) && IsJSONValue(raw) && codec.parse(raw).None?
    requires k !in seed || opts.overwrite
    ensures k in CopyResultAsWritten(c, codec, opts, src, seed)
    ensures CopyResultAsWritten(c, codec, opts, src, seed)[k] == src[k]
  {
    MalformedTextCopied(c, codec, opts, k, raw);
    assert KeepKey(c, opts)(k);
    CopyResultAsWrittenTakes(c, codec, opts, src, seed, k);
  }

  /** The same key and value under the corrected copy: the target gets "" in its place. */
  lemma MalformedJsonBlanked(c: Client, codec: Codec, opts: CopyOptions, src: Doc, seed: Doc, k: string,
                             raw: string)
    requires c.redactJSONVals && opts.copyConfig && !opts.copySecrets && IsRedactedKey(c, k)
    requires k in src && src[k] == JString(raw) && IsJSONValue(raw) && codec.parse(raw).None?
    requires k !in seed || opts.overwrite
    ensures k in CopyResult(c, codec, opts, src, seed)
    ensures CopyResult(c, codec, opts, src, seed)[k] == JString("")
  {
    MalformedValueCopied(c, codec, opts, k, raw);
    assert Takes(seed, src.Keys, opts.overwrite, KeepKey(c, opts), k);
    CopyResultHidesValues(c, codec, opts, src, seed, k);
  }

  /** The value step of MalformedJsonCopiedAsWritten. */
  lemma MalformedValueCopied(c: Client, codec: Codec, opts: CopyOptions, k: string, raw: string)
    requires c.redactJSONVals && !opts.copySecrets && IsRedactedKey(c, k)
    requires IsJSONValue(raw) && codec.parse(raw).None?
    ensures CopyOfAsWritten(c, codec, opts, k, JString(raw)) == Verbatim(raw)
    ensures CopyOf(c, codec, opts, k, JString(raw)) == Blanked
  {
  }

  /** The text step of MalformedJsonCopiedAsWritten: the written text is the source text. */
  lemma MalformedTextCopied(c: Client, codec: Codec, opts: CopyOptions, k: string, raw: string)
    requires c.redactJSONVals && !opts.copySecrets && IsRedactedKey(c, k)
    requires IsJSONValue(raw) && codec.parse(raw).None?
    ensures JString(CopiedText(codec, CopyOfAsWritten(c, codec, opts, k, JString(raw)))) == JString(raw)
  {
    MalformedValueCopied(c, codec, opts, k, raw);
  }
}
