/**
 * The copy rules the three copy operations share (pkg/vault/copy.go, pkg/awssecretsmanager/
 * copy.go, pkg/comparison/cross_store_copy.go): which source keys are copied, what value a
 * copied key gets, and how the copied keys are merged over what the target already holds.
 * Each operation supplies its own redaction test, JSON test and JSON redactor.
 */
module CopyEngine {
  import opened Wrappers
  import opened Json

  datatype CopyOptions = CopyOptions(overwrite: bool, copyConfig: bool, copySecrets: bool, onlyCopyKeys: bool)

  /**
   * The key filter: a redacted key is dropped unless CopySecrets or CopyConfig is set, a
   * plain key is dropped when CopySecrets is set without CopyConfig.
   */
  predicate Keep(redacted: bool, opts: CopyOptions)
  {
    && !(redacted && !opts.copySecrets && !opts.copyConfig)
    && !(!redacted && opts.copySecrets && !opts.copyConfig)
  }

  /**
   * The filter as a table: neither flag copies the plain keys only, CopySecrets alone the
   * redacted keys only, CopyConfig copies everything.
   */
  lemma KeepTable(redacted: bool, opts: CopyOptions)
    ensures !opts.copySecrets && !opts.copyConfig ==> (Keep(redacted, opts) <==> !redacted)
    ensures opts.copySecrets && !opts.copyConfig ==> (Keep(redacted, opts) <==> redacted)
    ensures opts.copyConfig ==> Keep(redacted, opts)
  {
  }

  /** What a copied key is given: the empty string, a re-encoded JSON value, or its `%v` text. */
  datatype Copied = Blanked | Encoded(data: Json) | Verbatim(s: string)

  /** The string stored for a copied key (`json.Marshal` for a re-encoded value). */
  function CopiedText(codec: Codec, v: Copied): string
  {
    match v
    case Blanked => ""
    case Encoded(data) => codec.marshal(data)
    case Verbatim(s) => s
  }

  /** The blanking condition for values that are not handled as JSON. */
  predicate MustBlank(redacted: bool, redactSecrets: bool, opts: CopyOptions)
  {
    opts.onlyCopyKeys || (redacted && !opts.copySecrets && redactSecrets)
  }

  /**
   * The value transform as the three files write it. `jsonGate` is the file's "handle as
   * JSON" test on the `%v` text; once it holds, a value that then fails to parse keeps its
   * text, whatever the options say.
   */
  function CopyValueAsWritten(codec: Codec, jsonGate: bool, redactor: Json -> Json, redacted: bool,
                              redactSecrets: bool, opts: CopyOptions, raw: string): (r: Copied)
    ensures r.Verbatim? ==> r.s == raw
  {
    if jsonGate then
      match codec.parse(raw)
      case Some(data) =>
        Encoded(if opts.onlyCopyKeys then ExtractStructure(data)
                else if redacted && !opts.copySecrets then redactor(data)
                else data)
      case None => Verbatim(raw)
    else if MustBlank(redacted, redactSecrets, opts) then Blanked
    else Verbatim(raw)
  }

  /**
   * As written, a value that passes the JSON gate but does not parse is copied verbatim even
   * under OnlyCopyKeys, or for a redacted key copied without CopySecrets.
   */
  lemma CopyValueAsWrittenLeaks(codec: Codec, redactor: Json -> Json, redacted: bool, redactSecrets: bool,
                                opts: CopyOptions, raw: string)
    requires codec.parse(raw).None?
    requires MustBlank(redacted, redactSecrets, opts)
    ensures CopyValueAsWritten(codec, true, redactor, redacted, redactSecrets, opts, raw) == Verbatim(raw)
  {
  }

  /**
   * The value transform with an unparseable value falling back to the rule for non-JSON
   * values, which the comment on that rule says it is for.
   */
  function CopyValue(codec: Codec, jsonGate: bool, redactor: Json -> Json, redacted: bool,
                     redactSecrets: bool, opts: CopyOptions, raw: string): (r: Copied)
    ensures opts.onlyCopyKeys ==> r.Blanked? || (r.Encoded? && Blank(r.data))
    ensures MustBlank(redacted, redactSecrets, opts) ==> !r.Verbatim?
    ensures r.Verbatim? ==> r == Verbatim(raw) && !MustBlank(redacted, redactSecrets, opts)
    ensures r.Encoded? ==> jsonGate && codec.parse(raw).Some?
    ensures r.Encoded? && !opts.onlyCopyKeys && redacted && !opts.copySecrets ==>
      r.data == redactor(codec.parse(raw).value)
  {
    if jsonGate && codec.parse(raw).Some? then
      var data := codec.parse(raw).value;
      if opts.onlyCopyKeys then (ExtractStructureIsBlank(data); Encoded(ExtractStructure(data)))
      else if redacted && !opts.copySecrets then Encoded(redactor(data))
      else Encoded(data)
    else if MustBlank(redacted, redactSecrets, opts) then Blanked
    else Verbatim(raw)
  }

  /** Where the JSON gate already implies that the value parses, the correction changes nothing. */
  lemma CopyValueAgreesWhenGateParses(codec: Codec, jsonGate: bool, redactor: Json -> Json, redacted: bool,
                                      redactSecrets: bool, opts: CopyOptions, raw: string)
    requires jsonGate ==> codec.parse(raw).Some?
    ensures CopyValue(codec, jsonGate, redactor, redacted, redactSecrets, opts, raw)
         == CopyValueAsWritten(codec, jsonGate, redactor, redacted, redactSecrets, opts, raw)
  {
  }

  /**
   * The redaction a copy applies to a kept redacted key is the JSON redactor's and nothing
   * else: a value that passes the gate, parses, and has nothing for the redactor to change is
   * re-encoded as it is, with no blanking. Every scalar is such a value.
   */
  lemma UnredactableJsonEncoded(codec: Codec, jsonGate: bool, redactor: Json -> Json, redacted: bool,
                                redactSecrets: bool, opts: CopyOptions, raw: string, data: Json)
    requires jsonGate && codec.parse(raw) == Some(data) && !opts.onlyCopyKeys
    requires redactor(data) == data
    ensures CopyValue(codec, jsonGate, redactor, redacted, redactSecrets, opts, raw) == Encoded(data)
    ensures CopyValueAsWritten(codec, jsonGate, redactor, redacted, redactSecrets, opts, raw) == Encoded(data)
  {
  }

  // ---------------------------------------------------------------------------------------
  // The merge
  // ---------------------------------------------------------------------------------------

  /** A source key is written over the seed: new or overwriting, and past the filter. */
  ghost predicate Takes(seed: Doc, sourceKeys: set<string>, overwrite: bool, keep: string -> bool, k: string)
  {
    k in sourceKeys && (k !in seed || overwrite) && keep(k)
  }

  /**
   * The document a copy writes: the seed (what the target held, or nothing), with every
   * taken source key set to its copied value.
   */
  ghost function Merged(seed: Doc, sourceKeys: set<string>, overwrite: bool, keep: string -> bool,
                        value: string -> Json): Doc
  {
    seed + map k | k in sourceKeys && Takes(seed, sourceKeys, overwrite, keep, k) :: value(k)
  }

  /**
   * What a merge keeps and what it changes: every seed key stays; without Overwrite every seed
   * value stays; a key is new only if it is a source key past the filter; a taken key holds
   * its copied value.
   */
  lemma MergedFacts(seed: Doc, sourceKeys: set<string>, overwrite: bool, keep: string -> bool,
                    value: string -> Json, k: string)
    ensures var m := Merged(seed, sourceKeys, overwrite, keep, value);
      && (k in seed ==> k in m)
      && (k in seed && !overwrite ==> m[k] == seed[k])
      && (k in m <==> k in seed || (k in sourceKeys && keep(k)))
      && (Takes(seed, sourceKeys, overwrite, keep, k) ==> m[k] == value(k))
      && (k in m && !Takes(seed, sourceKeys, overwrite, keep, k) ==> m[k] == seed[k])
  {
  }

  /** Before any source key is looked at, the merge is the seed. */
  lemma MergedSeed(seed: Doc, overwrite: bool, keep: string -> bool, value: string -> Json)
    ensures Merged(seed, {}, overwrite, keep, value) == seed
  {
    var m := Merged(seed, {}, overwrite, keep, value);
    assert m.Keys == seed.Keys;
  }

  /**
   * Taking one more source key into account: it is skipped when already present without
   * Overwrite or when filtered out, and set to its copied value otherwise.
   */
  lemma MergedStep(seed: Doc, done: set<string>, overwrite: bool, keep: string -> bool, value: string -> Json,
                   k: string, result: Doc)
    requires k !in done && result == Merged(seed, done, overwrite, keep, value)
    ensures k in result <==> k in seed
    ensures (k in result && !overwrite) || !keep(k) ==> result == Merged(seed, done + {k}, overwrite, keep, value)
    ensures !((k in result && !overwrite) || !keep(k)) ==>
      result[k := value(k)] == Merged(seed, done + {k}, overwrite, keep, value)
  {
    var after := Merged(seed, done + {k}, overwrite, keep, value);
    var expected := if (k in seed && !overwrite) || !keep(k) then result else result[k := value(k)];
    forall k' ensures (k' in after <==> k' in expected) && (k' in after ==> after[k'] == expected[k']) {
      if k' != k {
        assert Takes(seed, done + {k}, overwrite, keep, k') == Takes(seed, done, overwrite, keep, k');
      }
    }
    assert after == expected;
  }

  /**
   * The `for key, value := range source` loop over a result map seeded from the target:
   * skip a key already present unless overwriting, skip a filtered key, store the copied
   * value otherwise.
   */
  method MergeLoop(seed: Doc, sourceKeys: set<string>, overwrite: bool, keep: string -> bool, value: string -> Json)
    returns (result: Doc)
    ensures result == Merged(seed, sourceKeys, overwrite, keep, value)
  {
    result := seed;
    var todo := sourceKeys;
    MergedSeed(seed, overwrite, keep, value);
    assert sourceKeys - todo == {};
    while todo != {}
      invariant todo <= sourceKeys
      invariant result == Merged(seed, sourceKeys - todo, overwrite, keep, value)
      decreases |todo|
    {
      var k :| k in todo;
      MergedStep(seed, sourceKeys - todo, overwrite, keep, value, k, result);
      assert (sourceKeys - todo) + {k} == sourceKeys - (todo - {k});
      if k in result && !overwrite {
      } else if !keep(k) {
      } else {
        result := result[k := value(k)];
      }
      todo := todo - {k};
    }
    assert sourceKeys - todo == sourceKeys;
  }
}
