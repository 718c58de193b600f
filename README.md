# secretz: redacted compare, copy and split of secrets, in Dafny

secretz (`vault-promoter`) is a command-line tool. It compares, copies and splits secrets
between environments and stores. A secret is a flat key→value document. It is held either
in a HashiCorp Vault KV v2 engine or in AWS Secrets Manager, where it is a JSON-object
string or a plain string.

Every operation redacts what it shows or copies:
- A key is sensitive when, lower-cased, it contains a configured pattern.
- A value that is itself JSON can have its members redacted.
- A copy can blank values, keep only the structure, or keep the target's keys.

This project models, on values, the core of that tool:
- the configuration accessors (`Config`);
- the Vault client's reads, redaction and comparisons (`VaultClient`);
- the Vault copy (`VaultCopy`) and the Vault instance comparison (`VaultInstanceCompare`);
- the same three for AWS Secrets Manager (`AwsClient`, `AwsCopy`, `AwsInstanceCompare`);
- the cross-store comparison (`CrossStoreCompare`) and copy (`CrossStoreCopy`);
- the `copy` command's own logic (`CopyCommand`) and the `split` command (`SplitCommand`).

Shared pieces:
- `Text`: the `strings` functions the rules use.
- `Json`: decoded JSON values and the two recursive walkers, member redaction and structure extraction.
- `Diffs`: the diff records and the loop that emits one record per key.
- `CopyEngine`: the per-key copy decision and the merge loop, which all three copies share.
- `VaultApi` and `AwsApi`: the stores, as values.

The stores are values (`VaultState`, `AwsState`) that operations take and return.
- A read that fails for lack of rights is given by a set of unreadable locations; a refused write by a set of unwritable ones.
- The JSON library (`Unmarshal`, `Marshal`, `MarshalIndent`) and `fmt`'s `%v` of non-strings are the fields of a `Codec` record. The model does not look inside them.
- The text differ is a `textDiff` parameter.
- Go ranges over maps in no fixed order. A list of diffs is therefore specified by `Diffs.Realizes`: it holds, once each and in some order, the record of every key that has one.

Functions model code that computes a value. Methods with loop invariants model the loops that build maps and lists. Examples: the per-key diff loops, the merge loop of the copies, the log's key loop, the split's partition loop and `getKeysFromMap`.

## Model

| member | source | states |
|---|---|---|
| Config.ShouldRedactSecrets | pkg/config/config.go:33-39 | Secrets are redacted unless the file sets `redact_secrets` to false. |
| Config.ShouldRedactJSONValues | pkg/config/config.go:41-47 | JSON members are redacted only when the file sets `redact_json_values` to true. |
| Config.GetRedactedKeys | pkg/config/config.go:49-55 | The configured patterns when there are any; otherwise the 15 default patterns. The result is never empty. |
| Config.GetEnvironmentConfig | pkg/config/config.go:80-101 | Checks in order: unknown environment, Vault entry without URL, Vault entry without token variable, store other than "" or "vault". On success it returns the entry unchanged (as written). |
| Config.AwsEntryRejected | pkg/config/config.go:95-97 | As written, an entry naming "awssecretsmanager" is always refused as an unsupported store. |
| Config.GetEnvironmentConfigWithAws | pkg/config/config.go:80-101 | The same lookup with "awssecretsmanager" among the accepted stores. Success holds exactly for a complete entry of a supported store. |
| Config.WithAwsAgreesElsewhere | pkg/config/config.go:80-101 | The correction changes no answer for entries that do not name AWS. |
| Config.WithAwsAcceptsAws | pkg/config/config.go:95-97 | With the correction, an AWS entry is returned as it stands. |
| Text.Lower | pkg/vault/client.go:287-289 | `strings.ToLower`: same length, each ASCII capital lowered; other letters are kept (see "## Left out"). |
| Text.LowerIdempotent | pkg/vault/client.go:287-289 | Lower-casing twice is lower-casing once. |
| Text.Contains | pkg/vault/client.go:292-296 | `strings.Contains` holds exactly when the pattern occurs at some index, the empty pattern included. |
| Text.TrimSpace | cmd/cli/copy_secret.go:119 | `strings.TrimSpace`: the result is a slice of the input, everything around it is white space, and its ends are not white space. White space is `unicode.IsSpace`: the Latin-1 set and the other Unicode White_Space characters. |
| Text.MatchesAnyPattern | pkg/vault/client.go:292-298 | The early-return pattern loop: true exactly when some lower-cased pattern occurs in the lower-cased key. |
| Json.RedactMembers | pkg/vault/client.go:307-333 | The recursive JSON walk keeps object keys and array lengths and leaves scalars alone. |
| Json.RedactMembersHides | pkg/vault/client.go:307-333 | After redaction, every member with a redacted name holds the placeholder, at every depth. |
| Json.RedactMembersKeepsHidden | pkg/vault/client.go:307-333 | A value in which every redacted member is already hidden is left unchanged. |
| Json.RedactMembersUnchangedIff | pkg/vault/client.go:459-482 | Redaction changes a value exactly when something is still visible. This is the "was it redacted" flag of `TryParseAndRedactJSON`. |
| Json.RedactMembersIdempotent | pkg/vault/client.go:307-333 | Redacting twice is redacting once. |
| Json.RedactMembersSamePolicy | pkg/awssecretsmanager/client.go:291-321 | Two key tests that agree on every key redact every value alike. |
| Json.ExtractStructure | pkg/vault/copy.go:143-172 | Structure extraction keeps object keys and array lengths and turns every scalar into "". |
| Json.ExtractStructureIsBlank | pkg/vault/copy.go:143-172 | No scalar other than "" survives extraction, at any depth. |
| Json.ExtractStructureKeepsBlank | pkg/vault/copy.go:143-172 | An already blank value is a fixed point. |
| Json.ExtractStructureIdempotent | pkg/vault/copy.go:143-172 | Extracting twice is extracting once. |
| Diffs.Symbol | pkg/vault/client.go:38 | The status field is "+" exactly for an added key, "-" exactly for a removed key and "*" exactly for a modified one. |
| Diffs.Info | pkg/vault/client.go:155-162 | The first record of a one-sided comparison has key "INFO", is never redacted and has no diff text. |
| Diffs.Mirror | pkg/vault/client.go:223-283 | Seen from the other side, a change swaps current and target values, and "+" and "-". |
| Diffs.MirrorInvolutive | pkg/vault/client.go:223-283 | Mirroring twice gives the record back. |
| Diffs.Emit | pkg/vault/client.go:271-283 | The loop over a document skipping processed keys emits, once each, the record of every remaining key that has one. |
| Diffs.EmitBoth | pkg/vault/client.go:223-283 | The two loops (source keys, then target-only keys) together realize the entry function over the union of keys. |
| Diffs.EmitAfter | pkg/vault/client.go:153-186 | A one-sided comparison is the INFO record followed by one record per key of the existing side. |
| Diffs.RealizesMembers | pkg/vault/client.go:223-283 | A record is in the list exactly when it is the record of one of the keys. |
| Diffs.RealizesHasEntry | pkg/vault/client.go:223-283 | A key is reported exactly when its entry function gives a record. |
| Diffs.RealizesCount | pkg/vault/client.go:223-283 | There are as many records as keys with a record: each key is reported once. |
| Diffs.RealizesNothing | pkg/vault/client.go:223-283 | When no key has a record, the list is empty. |
| VaultApi.MountPath | pkg/vault/client.go:84-87 | The engine path gets exactly one trailing "/" if it lacks one. |
| VaultApi.MountPathIdempotent | pkg/vault/client.go:84-87 | Adding the slash twice adds it once. |
| VaultApi.KvGet | pkg/vault/client.go:94 | The KV v2 `Get` is refused exactly at unreadable locations. Otherwise it returns what the store holds at the location, when it holds anything. |
| VaultApi.KvPut | pkg/vault/copy.go:134 | The KV v2 `Put` succeeds exactly on a mounted engine at a writable location. It then replaces that one location's document and nothing else. |
| VaultApi.Mount | pkg/vault/copy.go:37-45 | Mounting adds the mount path and leaves every secret as it was. |
| AwsApi.GetSecretValue | pkg/awssecretsmanager/client.go:73-75 | Refused exactly for unreadable names. Otherwise it returns the stored secret, or reports that none exists. |
| AwsApi.CreateSecret | pkg/awssecretsmanager/copy.go:141-144 | Succeeds exactly for a new, writable name, and stores the string under it. |
| AwsApi.UpdateSecret | pkg/awssecretsmanager/copy.go:136-139 | Succeeds exactly for an existing, writable name, and replaces its string. |
| VaultApi.KvPutThenGet | pkg/vault/copy.go:134 | A successful KV v2 `Put` is what the next `Get` of that location returns. |
| AwsApi.WriteThenRead | pkg/awssecretsmanager/copy.go:133-148 | A successful `CreateSecret` or `UpdateSecret` is what the next `GetSecretValue` returns. |
| VaultClient.NewClient | pkg/vault/client.go:45-69 | The client takes its address from the entry and its redaction policy from the configuration accessors. |
| VaultClient.IsRedactedKey | pkg/vault/client.go:286-299 | No key is redacted when redaction is off. Otherwise a key is redacted exactly when some pattern matches it, ignoring case. |
| VaultClient.IsRedactedKeyIgnoresCase | pkg/vault/client.go:286-299 | A key and its lower-cased form are redacted alike. |
| VaultClient.IsJSONValue | pkg/vault/client.go:301-305 | Once trimmed, the text is bracketed by "{…}" or "[…]". It is not parsed. |
| VaultClient.RedactJSONValues | pkg/vault/client.go:307-333 | The identity unless JSON redaction is on; otherwise "****" replaces every member with a redacted name. |
| VaultClient.RedactJSONValuesHides | pkg/vault/client.go:307-333 | With JSON redaction on, the result hides every redacted member. |
| VaultClient.RedactJSONValuesIdempotent | pkg/vault/client.go:307-333 | Redacting twice is redacting once. |
| VaultClient.TryParseAndRedactJSON | pkg/vault/client.go:459-482 | The flag is set exactly when JSON redaction is on, the text looks like and parses as JSON, and redaction hides something. With the flag the text is re-marshalled redacted; otherwise it is returned untouched. |
| VaultClient.GetSecret | pkg/vault/client.go:71-103 | A missing engine, a missing secret ("secret not found") and any other read failure are distinct outcomes. A found secret's data is what the store holds. |
| VaultClient.IsOneOf | pkg/vault/client.go:106-117 | The suffix/environment check loop answers membership. |
| VaultClient.OneSidedKeyed | pkg/vault/client.go:165-215 | Each one-sided record describes its own key. |
| VaultClient.BothKeyed | pkg/vault/client.go:223-283 | Each two-sided record describes its own key. |
| VaultClient.CompareSecrets | pkg/vault/client.go:105-284 | Rejects an unknown suffix; fails on unusable reads and when the secret is missing in both environments. A one-sided comparison is INFO plus every key of the existing side. Otherwise every key that differs is reported once. |
| VaultClient.BothEntriesClassify | pkg/vault/client.go:223-283 | A key is silent exactly when it is on both sides with equal shown text. "+" means source only and "-" target only. A redacted key shows no diff text. |
| VaultClient.BothEntriesSelf | pkg/vault/client.go:223-283 | A secret compared with itself yields no records. |
| VaultClient.BothEntriesMirror | pkg/vault/client.go:223-283 | Swapping the sides mirrors each record. |
| VaultClient.PathsKeyed | pkg/vault/client.go:358-456 | Each path-comparison record describes its own key. |
| VaultClient.CompareSecretPaths | pkg/vault/client.go:335-457 | Any read failure on either path aborts. Otherwise every differing key is reported once, under the source path. |
| VaultClient.CompareSecretPathsReports | pkg/vault/client.go:358-456 | A key is reported exactly when it is on one side only or its raw `%v` texts differ. |
| VaultClient.CompareSecretPathsRecord | pkg/vault/client.go:358-456 | "+" means source only and "-" target only. A redacted key shows no diff text. |
| VaultClient.CompareSecretPathsSelf | pkg/vault/client.go:335-457 | A path compared with itself yields no records. |
| VaultClient.PathsEntriesMirror | pkg/vault/client.go:358-456 | Swapping the paths mirrors each record. |
| VaultCopy.EnsureKVEngineExists | pkg/vault/copy.go:21-50 | Afterwards the engine's mount path is mounted; an existing mount is left alone and no secret changes. |
| VaultCopy.EnsureKVEngineExistsIdempotent | pkg/vault/copy.go:21-50 | Ensuring the engine twice is ensuring it once. |
| VaultCopy.CopySecret | pkg/vault/copy.go:52-141 | Fails on an unreadable source or target, or a refused write. Otherwise it writes the target's keys merged with the kept source keys, each copied value a string. Values go through the corrected transform of Finding 2. |
| VaultCopy.CopyResultKeepsTarget | pkg/vault/copy.go:77-100 | Target keys survive, keep their values unless overwriting, and keys the filter drops are not added. |
| VaultCopy.CopyResultHidesValues | pkg/vault/copy.go:102-130 | With the corrected transform of Finding 2, a kept key is written as its copied text, and a redacted key copied without `--copy-secrets` never takes the verbatim branch: it is blanked or goes through the JSON redactor. With only-copy-keys, the value is blank. |
| VaultCopy.UnredactableJsonCopied | pkg/vault/copy.go:107-130 | A kept key whose bracketed value parses and shows no redacted member is re-encoded unchanged, so the target gets the source value (when the encoding gives the text back), whatever the redaction flags. |
| VaultCopy.BracketedPassesJsonTest | pkg/vault/copy.go:107 | Finding 2: "{oops}" passes the bracket test. |
| VaultCopy.MalformedJsonCopiedAsWritten | pkg/vault/copy.go:85-134 | Finding 2, as written: with JSON redaction on, `--copy-config` and no `--copy-secrets`, a redacted key whose value passes the bracket test but does not parse reaches the target verbatim. |
| VaultCopy.MalformedJsonBlanked | pkg/vault/copy.go:85-134 | Finding 2, corrected: the same key gets "" in the target. |
| VaultCopy.MalformedValueCopied | pkg/vault/copy.go:107-127 | For such a value, the as-written per-key decision is a verbatim copy and the corrected one blanks it. |
| VaultCopy.CopyResultAsWrittenTakes | pkg/vault/copy.go:85-131 | In the as-written copy, a key past the filter that is new or overwritten holds its as-written copied value. |
| CopyEngine.KeepTable | pkg/vault/copy.go:94-101 | The key filter: by default only non-redacted keys, with `--copy-secrets` only redacted keys, with `--copy-config` every key. |
| CopyEngine.CopyValueAsWritten | pkg/vault/copy.go:102-130 | The per-value decision as written. A verbatim copy is the `%v` text itself. |
| CopyEngine.CopyValueAsWrittenLeaks | pkg/vault/copy.go:107-127 | Finding 2: when the JSON gate opens on text that does not parse, a value that must be blanked is copied verbatim. |
| CopyEngine.CopyValue | pkg/vault/copy.go:102-130 | Corrected decision. A value that must be blanked is never verbatim. Only-copy-keys gives blanks. Only parsed JSON is re-encoded, redacted when the key is redacted. |
| CopyEngine.CopyValueAgreesWhenGateParses | pkg/vault/copy.go:107-127 | The correction agrees with the code as written whenever the JSON gate implies parsing. |
| CopyEngine.UnredactableJsonEncoded | pkg/vault/copy.go:107-127 | A value that passes the JSON gate, parses, and is left alone by the redactor is re-encoded as it is, in both transforms, with no blanking. |
| CopyEngine.MergedFacts | pkg/vault/copy.go:77-131 | The merge keeps seed keys, overwrites only when asked, adds exactly the kept source keys, and gives each taken key its copied value. |
| CopyEngine.MergeLoop | pkg/vault/copy.go:85-131 | The loop over the source keys computes the merge of the seed with the kept, transformed source keys. |
| VaultInstanceCompare.InstanceKeyed | pkg/vault/instance_compare.go:176-216 | Each record describes its own key. |
| VaultInstanceCompare.InstancesRedactAlike | pkg/vault/instance_compare.go:137-210 | Two clients built from one configuration give the same key test, so reading the unqualified `isRedactedKey` as the source client's changes nothing. |
| VaultInstanceCompare.Classify | pkg/vault/instance_compare.go:114-216 | Files the comparison: missing in source or in target, or the per-key diffs of both. |
| VaultInstanceCompare.CompareVaultInstances | pkg/vault/instance_compare.go:24-222 | Rejects a bad suffix, then a bad environment. Then it looks both entries up as written, so an "awssecretsmanager" entry is refused. An unreadable source, then an unreadable target, is an error, and so is a secret missing from both. The comparison succeeds exactly when both reads are usable and not both missing, and then it is classified. |
| VaultInstanceCompare.InstanceEntriesClassify | pkg/vault/instance_compare.go:176-216 | A key is reported exactly when it is one-sided or its `%v` texts differ. Records are redacted for redacted keys or "secret" suffixes, and never carry diff text. |
| VaultInstanceCompare.InstanceEntriesMirror | pkg/vault/instance_compare.go:176-216 | Swapping instances mirrors each record. |
| VaultInstanceCompare.InstanceEntriesSelf | pkg/vault/instance_compare.go:176-216 | An instance compared with itself yields no records. |
| AwsClient.NewClient | pkg/awssecretsmanager/client.go:42-69 | Fails exactly when the entry has no role. Otherwise the client takes the role and the redaction policy. |
| AwsClient.IsRedactedKey | pkg/awssecretsmanager/client.go:267-283 | With redaction on every key is redacted; otherwise a key is redacted when a pattern matches. |
| AwsClient.RedactJSONValuesHides | pkg/awssecretsmanager/client.go:291-321 | The redacted value hides every redacted member, and redaction is idempotent. |
| AwsClient.RedactJSONValuesBlanksObjects | pkg/awssecretsmanager/client.go:291-321 | With redaction on, every member of an object becomes "(redacted)". |
| AwsClient.TryParseAndRedactJSON | pkg/awssecretsmanager/client.go:323-346 | The flag is set exactly when the text parses and redaction hides something; then the text is re-indented redacted. |
| AwsClient.Detect | pkg/awssecretsmanager/client.go:90-104 | A JSON object (or null) string is the document. Any other string is wrapped as {"value": string}. |
| AwsClient.DetectPlainRoundTrip | pkg/awssecretsmanager/client.go:98-103 | A plain string is recovered from its wrapping. |
| AwsClient.GetSecret | pkg/awssecretsmanager/client.go:71-105 | Not found, access failure and a binary secret are distinct outcomes. A string secret is detected as JSON or plain. |
| AwsClient.PathsKeyed | pkg/awssecretsmanager/client.go:166-264 | Each record describes its own key. |
| AwsClient.CompareSecretPaths | pkg/awssecretsmanager/client.go:107-265 | Read failures abort, and so do mixed JSON and plain secrets. Plain secrets give one "value" record when they differ. JSON secrets give one record per differing key. |
| AwsClient.CompareSecretPathsReports | pkg/awssecretsmanager/client.go:166-264 | A key is reported exactly when it is one-sided or its `%v` texts differ. |
| AwsClient.CompareSecretPathsRecord | pkg/awssecretsmanager/client.go:166-264 | "+" means source only and "-" target only. With redaction on, records are redacted and show no diff text. |
| AwsClient.CompareSecretPathsSelf | pkg/awssecretsmanager/client.go:107-265 | A path compared with itself yields no records. |
| AwsCopy.CopyOfAsWritten | pkg/awssecretsmanager/copy.go:97-126 | The AWS per-value copy is the shared decision with the AWS JSON test, which parses. |
| AwsCopy.Seed | pkg/awssecretsmanager/copy.go:70-79 | The merge starts from the target's document when the target exists as JSON; otherwise from nothing. |
| AwsCopy.PlainCopy | pkg/awssecretsmanager/copy.go:43-50 | A plain secret is copied as "" when secrets are redacted and not copied; otherwise as it is. |
| AwsCopy.Store | pkg/awssecretsmanager/copy.go:133-148 | An existing target is updated; a new one is created. |
| AwsCopy.WriteMerged | pkg/awssecretsmanager/copy.go:129-152 | The merged document is marshalled and stored. A refused write leaves the account unchanged. |
| AwsCopy.CopySecret | pkg/awssecretsmanager/copy.go:23-153 | Fails when the source is unreadable. A plain secret is written as its (possibly blanked) value. A JSON secret is merged into the target and written. |
| AwsCopy.WritePlain | pkg/awssecretsmanager/copy.go:41-66 | The plain copy is created or updated at the target. |
| AwsCopy.CopySecretData | pkg/awssecretsmanager/copy.go:155-250 | A given document is merged into the target and written. |
| AwsCopy.CopyResultKeepsTarget | pkg/awssecretsmanager/copy.go:70-95 | Target keys survive unless overwritten. Only kept source keys are added. |
| AwsCopy.CopyResultHidesValues | pkg/awssecretsmanager/copy.go:97-126 | A kept key is written as its copied text. With redaction on and no `--copy-secrets`, no value takes the verbatim branch: it is blanked or goes through the JSON redactor. With only-copy-keys, the value is blank. |
| AwsCopy.UnredactableJsonCopied | pkg/awssecretsmanager/copy.go:102-125 | A kept key whose value parses (any JSON, see client.go:285-288) and shows no redacted member is re-encoded unchanged, so the target gets the source value (when the encoding gives the text back). |
| AwsCopy.ScalarSecretCopied | pkg/awssecretsmanager/client.go:285-319 | With both redaction flags on, `--copy-config` and no `--copy-secrets`, a redacted key holding a JSON scalar such as "1234" is not blanked: it parses, the redactor returns a scalar as it is, and the target gets the source value. |
| AwsCopy.DefaultCopyAddsNothing | pkg/awssecretsmanager/copy.go:84-95 | With redaction on and no copy flag, every key is redacted and filtered out, so the target is unchanged. |
| AwsInstanceCompare.SecretFormatName | pkg/awssecretsmanager/instance_compare.go:354-359 | "JSON" for a JSON secret, "string" otherwise. |
| AwsInstanceCompare.InstanceKeyed | pkg/awssecretsmanager/instance_compare.go:261-350 | Each record describes its own key. |
| AwsInstanceCompare.PlainRecords | pkg/awssecretsmanager/instance_compare.go:209-255 | Plain secrets without "value" are a structure error. Otherwise they give one record exactly when the values differ. |
| AwsInstanceCompare.PlainStructureAlwaysValid | pkg/awssecretsmanager/instance_compare.go:209-230 | Plain secrets read through the client always have "value", so the structure error cannot occur. |
| AwsInstanceCompare.Classify | pkg/awssecretsmanager/instance_compare.go:107-350 | Files the comparison: missing on one side, a format mismatch, plain values, or JSON keys. |
| AwsInstanceCompare.CompareObjects | pkg/awssecretsmanager/instance_compare.go:258-350 | The per-key loops report every differing key once; nothing is filed when nothing differs. |
| AwsInstanceCompare.OrDefault | pkg/awssecretsmanager/instance_compare.go:70-76 | An empty target path or environment defaults to the source's. |
| AwsInstanceCompare.CompareAWSSecretInstances | pkg/awssecretsmanager/instance_compare.go:24-352 | Each failure in order: source entry, target entry, source not AWS, target not AWS, source client, target client, source read, target read, missing in both. It succeeds exactly when none applies. The result then records both paths and environments (an empty target defaults to the source's) and classifies the two reads. |
| AwsInstanceCompare.InstanceEntriesClassify | pkg/awssecretsmanager/instance_compare.go:261-350 | A key is reported exactly when it is one-sided or its shown texts differ. With redaction on, records show no diff text. |
| AwsInstanceCompare.InstanceEntriesSelf | pkg/awssecretsmanager/instance_compare.go:258-350 | An instance compared with itself yields no records. |
| CrossStoreCompare.ShouldRedact | pkg/comparison/cross_store_compare.go:374-390 | With redaction on every key is redacted; otherwise a key is redacted exactly when a pattern occurs in it, ignoring case. |
| CrossStoreCompare.ShouldRedactAgreesWithAwsClient | pkg/comparison/cross_store_compare.go:374-390 | The cross-store rule is the AWS client's rule. |
| CrossStoreCompare.RedactJSONValuesAgreesWithAwsClient | pkg/comparison/cross_store_compare.go:423-452 | The redaction gives the same value as the AWS client built from the same configuration, so the hiding and idempotence of `AwsClient.RedactJSONValuesHides` carry over. |
| CrossStoreCompare.TryParseAndRedactJSON | pkg/comparison/cross_store_compare.go:392-415 | The flag is set exactly when the text parses. A parsed value is always re-indented, redacted. |
| CrossStoreCompare.TryParseReindentsUnredacted | pkg/comparison/cross_store_compare.go:392-415 | Unlike the clients' versions, the flag is set even when nothing was redacted. |
| CrossStoreCompare.TryParseDiffersFromAwsClient | pkg/comparison/cross_store_compare.go:392-415 | On a value that parses and has nothing to redact, this version re-indents it and reports JSON, while the AWS client's (pkg/awssecretsmanager/client.go:322-346) returns it unchanged and reports no JSON. |
| CrossStoreCompare.Shown | pkg/comparison/cross_store_compare.go:274-335 | The shown text is the `%v` text, re-indented and redacted when JSON redaction is on and it parses. |
| CrossStoreCompare.ReadSide | pkg/comparison/cross_store_compare.go:88-176 | A Vault side is read through a Vault client. Any other side is read through an AWS client, which needs a role. A plain AWS secret is refused. A missing secret is a missing side. |
| CrossStoreCompare.CrossKeyed | pkg/comparison/cross_store_compare.go:274-365 | Each record describes its own key. |
| CrossStoreCompare.Classify | pkg/comparison/cross_store_compare.go:184-365 | Files the comparison under the source path: missing in source or in target, or the per-key diffs of both. |
| CrossStoreCompare.CompareVaultWithAWS | pkg/comparison/cross_store_compare.go:46-372 | Entry lookups come first (the corrected lookup of Finding 1), then a Vault/AWS pair check, then both reads (the target's Vault engine is the source's). It fails when both are missing; otherwise it classifies. |
| CrossStoreCompare.AsWrittenNoPairAccepted | pkg/comparison/cross_store_compare.go:52-82 | Finding 1: with the configuration lookup as written, no pair of entries passes the store-pair check. |
| CrossStoreCompare.CrossEntriesClassify | pkg/comparison/cross_store_compare.go:274-365 | A key is reported exactly when it is one-sided or its shown texts differ. Records are redacted exactly for redacted keys, and those show no diff text. |
| CrossStoreCompare.CrossReports | pkg/comparison/cross_store_compare.go:274-365 | Every differing key is reported, and only those. |
| CrossStoreCompare.CrossSelf | pkg/comparison/cross_store_compare.go:274-365 | A document compared with itself yields no records. |
| CrossStoreCopy.CopyOfAsWritten | pkg/comparison/cross_store_copy.go:148-188 | The cross-store per-value copy is the shared decision with a parsing JSON gate. |
| CrossStoreCopy.CopyToVault | pkg/comparison/cross_store_copy.go:130-195 | Mounts the target engine and writes the kept, transformed source keys at the target path. A refused write is an error. |
| CrossStoreCopy.VaultDocContents | pkg/comparison/cross_store_copy.go:145-190 | The written document holds exactly the kept source keys, each as its copied text. With redaction on and no `--copy-secrets` no value takes the verbatim branch: it is blanked or goes through the JSON redactor. With only-copy-keys, each value is blank. |
| CrossStoreCopy.UnredactableJsonCopied | pkg/comparison/cross_store_copy.go:154-176 | A kept key whose value parses and shows no redacted member is re-encoded unchanged, so Vault gets the source value (when the encoding gives the text back). |
| CrossStoreCopy.ScalarSecretCopied | pkg/comparison/cross_store_copy.go:154-176 | With both redaction flags on, `--copy-config` and no `--copy-secrets`, a redacted key holding a JSON scalar such as "1234" reaches Vault unredacted. |
| CrossStoreCopy.DefaultCopyToVaultWritesEmpty | pkg/comparison/cross_store_copy.go:145-195 | With redaction on and no copy flag, the target is replaced by an empty document. There is no merge with the target's keys. |
| CrossStoreCopy.VaultToAws | pkg/comparison/cross_store_copy.go:196-215 | Corrected Vault→AWS copy: the Vault document read is merged into the AWS target and written. |
| CrossStoreCopy.VaultToAwsAsWritten | pkg/comparison/cross_store_copy.go:196-215 | As written: after reading Vault, it copies `sourcePath` to `targetPath` within the AWS target account. |
| CrossStoreCopy.AsWrittenLosesVaultSecret | pkg/comparison/cross_store_copy.go:196-215 | Finding 3: when the AWS account has no secret at the source path, the as-written copy fails and writes nothing, whatever Vault holds. |
| CrossStoreCopy.CorrectedCopiesVaultKeys | pkg/comparison/cross_store_copy.go:196-215 | Finding 3: the corrected copy puts every kept Vault key into the AWS target. |
| CrossStoreCopy.AwsToVault | pkg/comparison/cross_store_copy.go:107-195 | Needs a role and a JSON AWS secret; then the Vault target is written as in CopyToVault. |
| CrossStoreCopy.CopyWithinVault | pkg/comparison/cross_store_copy.go:224-288 | Mounts, then checks the source exists. It refuses the same path, environment and URL, then runs the Vault copy with the target client. That copy uses the corrected value transform of Finding 2. |
| CrossStoreCopy.CopyWithinAws | pkg/comparison/cross_store_copy.go:290-345 | Needs both clients and the source secret. It refuses the same path and role, then runs the AWS copy in the target account. |
| CrossStoreCopy.CopyVaultWithAWS | pkg/comparison/cross_store_copy.go:37-222 | Dispatches on the two stores: within Vault, within AWS, an unsupported single store, a Vault/AWS pair, or a refused pair. The success result names both sides. The lookup is the corrected one of Finding 1, the Vault copies use the corrected value transform of Finding 2, and the Vault→AWS branch is the corrected write `VaultToAws` of Finding 3. |
| CopyCommand.ContainsAny | cmd/cli/copy_secret.go:98-103 | The pattern loop of `isSensitiveKey`, patterns taken as they are: true exactly when some pattern occurs in the lower-cased key. |
| CopyCommand.IsSensitiveKey | cmd/cli/copy_secret.go:92-106 | True exactly when one of the 15 fixed patterns occurs in the lower-cased key. |
| CopyCommand.SensitiveIsDefaultPolicy | cmd/cli/copy_secret.go:92-106 | The fixed list is the default redaction list, already lower case: the log hides what the default policy hides. |
| CopyCommand.Logged | cmd/cli/copy_secret.go:49-59 | The logged keys are exactly the result's keys. |
| CopyCommand.LoggedHidesExactlySensitive | cmd/cli/copy_secret.go:49-59 | A sensitive key is logged as "(redacted)"; every other key keeps its value. |
| CopyCommand.LoggedIdempotent | cmd/cli/copy_secret.go:49-59 | Logging a logged key set changes nothing. |
| CopyCommand.LogKeys | cmd/cli/copy_secret.go:46-59 | The loop builds the logged keys of the result; a nil key map gives an empty one. |
| CopyCommand.LogCopyOperation | cmd/cli/copy_secret.go:34-59 | The entry has the result's keys, sensitive ones as "(redacted)" and the others with their values, plus the other fields as given. |
| CopyCommand.Confirmed | cmd/cli/copy_secret.go:109-121 | A reply confirms exactly when, trimmed and lower-cased, it is "y" or "yes". A failed read never confirms. |
| CopyCommand.ConfirmedTypedYes | cmd/cli/copy_secret.go:113-120 | "y" followed by the newline is accepted. |
| CopyCommand.ConfirmedPaddedYes | cmd/cli/copy_secret.go:119-120 | Surrounding white space and case do not matter. |
| CopyCommand.ConfirmedIdeographicSpace | cmd/cli/copy_secret.go:119-120 | White space outside ASCII is trimmed as well: U+3000 followed by "y" is accepted. |
| CopyCommand.NotConfirmedEmpty | cmd/cli/copy_secret.go:119-120 | An empty line is a refusal. |
| CopyCommand.NotConfirmedLonger | cmd/cli/copy_secret.go:119-120 | A longer word ("yess") is a refusal. |
| CopyCommand.ConfirmedIsShort | cmd/cli/copy_secret.go:119-120 | A confirming reply is one to three characters once trimmed. |
| CopyCommand.TargetPathOf | cmd/cli/copy_secret.go:160-165 | The fourth argument when given, else the source path. |
| CopyCommand.CopyStart | cmd/cli/copy_secret.go:154-191 | The same location (env, path and engine) is refused before anything else. Then a dry run stops. Then, without `--approve`, an unconfirmed reply cancels. |
| CopyCommand.ProceedMovesSomewhere | cmd/cli/copy_secret.go:167-171 | A copy that goes ahead differs in environment, path or engine. |
| CopyCommand.DefaultTargetWithinEnvRefused | cmd/cli/copy_secret.go:160-171 | With three arguments, one environment and one engine, the copy is always refused. |
| CopyCommand.ProceedNeedsConsent | cmd/cli/copy_secret.go:173-191 | A copy goes ahead only outside dry runs and with `--approve` or a confirmed reply. |
| SplitCommand.SensitiveIsPatternMatch | cmd/cli/split_secret.go:237-243 | The equality test is subsumed by the substring test: sensitive means some lower-cased pattern occurs in the lower-cased key. |
| SplitCommand.IsSensitive | cmd/cli/split_secret.go:236-244 | The inner pattern loop with `break` decides sensitivity. |
| SplitCommand.PartitionSplitsDoc | cmd/cli/split_secret.go:229-252 | The two parts have disjoint keys and together are the source document, values unchanged. |
| SplitCommand.Partition | cmd/cli/split_secret.go:228-252 | The loop fills the target part with exactly the sensitive keys and the new source with the rest. The list of split keys names each moved key once. The flag is set exactly when something moves. |
| SplitCommand.KeysOf | cmd/cli/split_secret.go:29-36 | `getKeysFromMap` lists every key of the map once. |
| SplitCommand.Preflight | cmd/cli/split_secret.go:117-215 | Defaults the target env and engine, looks both entries up as written (so an "awssecretsmanager" entry is a configuration error), requires two entries whose store is exactly "vault" and a source engine, and mounts the target engine. Reads the source (unreadable or nil data abort) and the target (existing or unreadable abort). It never changes a secret. |
| SplitCommand.Move | cmd/cli/split_secret.go:217-286 | No patterns or no match writes nothing. Otherwise the target is written first and the source second. A failed source write leaves the target written. Success logs the key names only. |
| SplitCommand.SplitSecret | cmd/cli/split_secret.go:111-287 | A dry run and a refused confirmation change nothing. Otherwise a preflight failure is reported with the state it leaves; after it, the move. |
| SplitCommand.ReadyMeansNewTarget | cmd/cli/split_secret.go:206-215 | A split only goes ahead onto a path other than its source. |
| SplitCommand.FailedMoveWritesNothing | cmd/cli/split_secret.go:218-269 | Every failure except the source write leaves the secrets as they were. |
| SplitCommand.SplitMovesKeys | cmd/cli/split_secret.go:264-286 | After a split the target reads back exactly the sensitive keys and the source the rest. Together they are the original, and the log names each moved key once. |
| SplitCommand.PartialSplitDuplicates | cmd/cli/split_secret.go:273-279 | When the source write fails, nothing is rolled back: the sensitive keys are in the target and still in the unchanged source. |

## Left out

- Reading the configuration file, fetching the Vault token from the environment, and authenticating to Vault or AWS (`ReadConfigs`, `GetVaultToken`, sessions, role assumption): I/O. A client is built from the entry and cannot fail, except that an AWS client needs a role.
- Failures of `ListMounts` and `Mount` inside `EnsureKVEngineExists`: network errors; the model always mounts.
- `GenerateDiff` and the external text differ: the `textDiff` parameter.
- `json.Unmarshal`, `json.Marshal`, `json.MarshalIndent` and `%v` of non-string values: the fields of `Codec`. JSON numbers are reals; floating-point formatting is not modelled.
- The "secret not found" and "404" substring tests on error messages: the `NotFound` tag of a read.
- Each instance is one store value per side. Two entries that name the same server are not forced to share one state.
- All printing, the log files and their JSON encoding, and the clock: the timestamp is a parameter.
- The `copy` command's dispatch after it loads the configuration (cmd/cli/copy_secret.go:193-361). It calls the operations modelled in `VaultCopy`, `AwsCopy` and `CrossStoreCopy`. Its call at line 344 passes `secretPath`, a name the file does not define.
- `configs.GetSensitiveKeys` (cmd/cli/split_secret.go:218) is not part of this model: the split takes its pattern list as a parameter.
- `WriteSecret` of the Vault client (cmd/cli/split_secret.go:265, 274) is not part of this model. It is taken to put the document at the path in the client's engine, which is the source engine. `--target-kv` only decides which engine is mounted.
- `split` rejects an entry whose store is "", even though the configuration accepts "" as Vault. This is modelled as written.
- `CopyResult.Keys` is never set by any copy operation, so a logged copy always has no keys. `CopyCommand.LogCopyOperation` takes the key map as a parameter, so the redaction rule is stated for any map.
- The within-store copies read `sourcePath` through the target client, in the target instance. The source is only checked for existence. This is modelled as written.
- CrossStoreCopy.VaultToAwsAsWritten: kept beside the corrected `VaultToAws`, which the dispatcher uses (Finding 3).
- VaultInstanceCompare.CompareVaultInstances: the unqualified `isRedactedKey` at pkg/vault/instance_compare.go:137, 164, 184, 198 and 210 is read as the source client's; `InstancesRedactAlike` shows the target client's gives the same answer. The calls to `NewClient` there pass (URL, token, environment, engine), which differs from the signature at pkg/vault/client.go:45; the model builds the client from the entry.
- AwsInstanceCompare.CompareAWSSecretInstances: looks entries up with the corrected `Config.GetEnvironmentConfigWithAws` (Finding 1), since as written no AWS entry could be compared. `WithAwsAgreesElsewhere` shows the two lookups agree on every other entry.
- CrossStoreCompare.CompareVaultWithAWS: uses the corrected lookup `Config.GetEnvironmentConfigWithAws` (Finding 1), for the same reason.
- CrossStoreCopy.CopyVaultWithAWS: uses the corrected lookup `Config.GetEnvironmentConfigWithAws` (Finding 1), the corrected Vault value transform `CopyEngine.CopyValue` (Finding 2) and the corrected Vault→AWS write `VaultToAws` (Finding 3), where pkg/comparison/cross_store_copy.go:196-215 calls the AWS client's `CopySecret(sourcePath, targetPath)` inside the AWS account.
- VaultCopy.CopySecret: runs the corrected value transform `CopyEngine.CopyValue` (Finding 2). A kept redacted value that passes the bracket test but does not parse is written as "", where pkg/vault/copy.go:107-127 writes it verbatim. The as-written result is `VaultCopy.CopyResultAsWritten`; `MalformedJsonCopiedAsWritten` and `MalformedJsonBlanked` show the difference.
- VaultCopy.CopyResultHidesValues: stated for the corrected transform (Finding 2). As written, the malformed JSON value above reaches the target verbatim.
- CrossStoreCopy.CopyWithinVault: runs `VaultCopy.CopySecret`, so it carries the corrected transform of Finding 2.
- Text.Lower: ASCII case folding only. Go's `strings.ToLower` also lowers other capitals, e.g. U+212A (Kelvin sign) to "k", so a key with such letters can match a pattern in Go and not in `VaultClient.IsRedactedKey`, `AwsClient.IsRedactedKey`, `CrossStoreCompare.ShouldRedact`, `CopyCommand.IsSensitiveKey`, `SplitCommand.IsSensitive` or `Text.MatchesAnyPattern`.
- CopyCommand.Confirmed: lower-cases ASCII only. Among Unicode's simple lower-case mappings only U+212A and U+0130 land on ASCII letters ("k" and "i"), and neither is "y", "e" or "s", so the answer is Go's. White space is Unicode's, as in Go.

## Findings

| source | as written | input that shows it | evidently intended | confidence | as-written member | corrected member |
|---|---|---|---|---|---|---|
| pkg/config/config.go:95-97 | every store other than "" and "vault" is refused | an entry with `"store": "awssecretsmanager"` is refused as an unsupported store, so every AWS and cross-store operation fails at its first lookup | accept "awssecretsmanager", which all AWS callers then require | high, not executed | Config.AwsEntryRejected | Config.WithAwsAcceptsAws |
| pkg/vault/copy.go:107-127 | the JSON branch is chosen by the bracket test, and a failed parse falls through with the text unchanged, skipping the blanking `else` branch | a redacted key with value `{oops}`, `redact_secrets` and `redact_json_values` on, `--copy-config` without `--copy-secrets`: the value is copied verbatim | a value that does not parse is blanked like any other redacted plain value | high, not executed | VaultCopy.MalformedJsonCopiedAsWritten | CopyEngine.CopyValue |
| pkg/comparison/cross_store_copy.go:196-215 | a Vault→AWS copy reads the Vault secret, then calls the AWS client's `CopySecret(sourcePath, targetPath)` inside the AWS account | a Vault secret at `app/config` and no AWS secret of that name: the copy fails with "secret not found", and the Vault data is never written | write the Vault document into the AWS target (the client's `CopySecretData`) | high, not executed | CrossStoreCopy.AsWrittenLosesVaultSecret | CrossStoreCopy.CorrectedCopiesVaultKeys |
