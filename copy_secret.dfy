/**
 * The `copy` command's own logic, around the store operations it calls: the fixed
 * sensitive-key test of the log, the redaction of the logged keys, the default target
 * path, the refusal to copy a secret onto itself and the reading of the confirmation
 * reply. Writing the log file and the prompt on standard output are left out; the
 * clock reading and the line read from standard input are parameters.
 */
module CopyCommand {
  import opened Wrappers
  import opened Text
  import opened Json
  import Config

  /** The patterns of the copy log, fixed in the program and already lower case. */
  const SensitivePatterns: seq<string> := [
    "password", "secret", "token", "key", "credential", "auth", "pwd", "pass",
    "apikey", "api_key", "access_key", "secret_key", "private_key", "cert", "certificate"]

  /** The loop of `isSensitiveKey`: some pattern, taken as it is, occurs in `lowerKey`. */
  function ContainsAny(lowerKey: string, patterns: seq<string>): (r: bool)
    ensures r <==> exists i :: 0 <= i < |patterns| && Contains(lowerKey, patterns[i])
  {
    if patterns == [] then false
    else Contains(lowerKey, patterns[0]) || ContainsAny(lowerKey, patterns[1..])
  }

  /** isSensitiveKey: the lower-cased key contains one of the fixed patterns. */
  function IsSensitiveKey(key: string): (r: bool)
    ensures r <==> exists i :: 0 <= i < |SensitivePatterns| && Contains(Lower(key), SensitivePatterns[i])
  {
    ContainsAny(Lower(key), SensitivePatterns)
  }

  lemma LowerKeepsLowerCase(s: string)
    requires forall i :: 0 <= i < |s| ==> !('A' <= s[i] <= 'Z')
    ensures Lower(s) == s
  {
  }

  /**
   * The log's fixed list is the default redaction list of the configuration, and lower
   * case, so the log hides exactly what a client built from a file without
   * `redacted_keys` hides.
   */
  lemma SensitiveIsDefaultPolicy(key: string)
    ensures IsSensitiveKey(key) <==> MatchesAnyPattern(Lower(key), Config.DefaultRedactedKeys)
  {
    assert SensitivePatterns == Config.DefaultRedactedKeys;
    forall i | 0 <= i < |SensitivePatterns|
      ensures Lower(SensitivePatterns[i]) == SensitivePatterns[i]
    {
      LowerKeepsLowerCase(SensitivePatterns[i]);
    }
  }

  const Placeholder := "(redacted)"

  /** What the log shows of one copied key. */
  function LoggedValue(k: string, v: Json): Json
  {
    if IsSensitiveKey(k) then JString(Placeholder) else v
  }

  /** The `keys` member of a log entry for a result with keys `keys`. */
  function Logged(keys: Doc): (m: Doc)
    ensures m.Keys == keys.Keys
  {
    map k | k in keys :: LoggedValue(k, keys[k])
  }

  /** No value of a sensitive key reaches the log, and every other value does unchanged. */
  lemma LoggedHidesExactlySensitive(keys: Doc, k: string)
    requires k in keys
    ensures IsSensitiveKey(k) ==> Logged(keys)[k] == JString(Placeholder)
    ensures !IsSensitiveKey(k) ==> Logged(keys)[k] == keys[k]
  {
  }

  /** Logging an already logged key set changes nothing. */
  lemma LoggedIdempotent(keys: Doc)
    ensures Logged(Logged(keys)) == Logged(keys)
  {
    var once := Logged(keys);
    forall k | k in once ensures Logged(once)[k] == once[k] {
      LoggedHidesExactlySensitive(keys, k);
      LoggedHidesExactlySensitive(once, k);
    }
  }

  /** The loop of logCopyOperation that fills `entry.Keys`; a nil `result.Keys` gives none. */
  method LogKeys(resultKeys: Option<Doc>) returns (entryKeys: Doc)
    ensures entryKeys == (if resultKeys.None? then map[] else Logged(resultKeys.value))
  {
    entryKeys := map[];
    if resultKeys.None? {
      return;
    }
    var keys := resultKeys.value;
    var todo := keys.Keys;
    while todo != {}
      invariant todo <= keys.Keys
      invariant entryKeys.Keys == keys.Keys - todo
      invariant forall k | k in entryKeys :: entryKeys[k] == LoggedValue(k, keys[k])
      decreases todo
    {
      var k :| k in todo;
      if IsSensitiveKey(k) {
        entryKeys := entryKeys[k := JString(Placeholder)];
      } else {
        entryKeys := entryKeys[k := keys[k]];
      }
      todo := todo - {k};
    }
    assert entryKeys.Keys == Logged(keys).Keys;
  }

  /** One line of the copy log, before it is marshalled. */
  datatype CopyLogEntry = CopyLogEntry(
    timestamp: string,
    sourceEnv: string,
    targetEnv: string,
    sourcePath: string,
    targetPath: string,
    sourceStore: string,
    targetStore: string,
    success: bool,
    message: string,
    keys: Doc)

  /** logCopyOperation, up to the marshalling: the entry for a copy result. */
  method LogCopyOperation(timestamp: string, sourceEnv: string, targetEnv: string,
                          sourcePath: string, targetPath: string,
                          sourceStore: string, targetStore: string, success: bool, message: string,
                          resultKeys: Option<Doc>)
    returns (entry: CopyLogEntry)
    ensures entry.keys.Keys == (if resultKeys.None? then {} else resultKeys.value.Keys)
    ensures forall k | k in entry.keys :: IsSensitiveKey(k) ==> entry.keys[k] == JString(Placeholder)
    ensures forall k | k in entry.keys :: !IsSensitiveKey(k) ==> entry.keys[k] == resultKeys.value[k]
    ensures entry == CopyLogEntry(timestamp, sourceEnv, targetEnv, sourcePath, targetPath,
                                  sourceStore, targetStore, success, message, entry.keys)
  {
    var keys := LogKeys(resultKeys);
    entry := CopyLogEntry(timestamp, sourceEnv, targetEnv, sourcePath, targetPath,
                          sourceStore, targetStore, success, message, keys);
  }

  /**
   * promptForConfirmation, given the line read (None: the read failed): yes only for
   * "y" or "yes", in any case, with white space around it.
   */
  function Confirmed(reply: Option<string>): (ok: bool)
    ensures ok ==> reply.Some?
    ensures reply.Some? ==> (ok <==> Lower(TrimSpace(reply.value)) in {"y", "yes"})
  {
    match reply
    case None => false
    case Some(line) =>
      var answer := Lower(TrimSpace(line));
      answer == "y" || answer == "yes"
  }

  /** The reply as typed, newline included, is accepted. */
  lemma ConfirmedTypedYes()
    ensures Confirmed(Some("y\n"))
  {
    assert LeadingSpace("y\n") == 0;
    assert TrailingSpace("y\n") == 1 + TrailingSpace("y");
    assert TrimSpace("y\n") == "y";
  }

  /** Case and surrounding white space do not matter. */
  lemma ConfirmedPaddedYes()
    ensures Confirmed(Some(" Yes\n"))
  {
    assert LeadingSpace(" Yes\n") == 1 + LeadingSpace("Yes\n");
    assert LeadingSpace("Yes\n") == 0;
    assert " Yes\n"[1..] == "Yes\n";
    assert TrailingSpace("Yes\n") == 1 + TrailingSpace("Yes");
    assert TrailingSpace("Yes") == 0;
    assert "Yes\n"[..3] == "Yes";
    assert TrimSpace(" Yes\n") == "Yes";
    assert Lower("Yes") == "yes";
  }

  /** White space outside ASCII counts too: an ideographic space before the answer is trimmed. */
  lemma ConfirmedIdeographicSpace()
    ensures Confirmed(Some("\U{3000}y\n"))
  {
    assert LeadingSpace("\U{3000}y\n") == 1 + LeadingSpace("y\n");
    assert LeadingSpace("y\n") == 0;
    assert "\U{3000}y\n"[1..] == "y\n";
    assert TrailingSpace("y\n") == 1 + TrailingSpace("y");
    assert TrailingSpace("y") == 0;
    assert "y\n"[..1] == "y";
    assert TrimSpace("\U{3000}y\n") == "y";
  }

  /** An empty line is a no. */
  lemma NotConfirmedEmpty()
    ensures !Confirmed(Some("\n"))
  {
    assert TrailingSpace("\n") == 1 + TrailingSpace("");
    assert TrimSpace("\n") == "";
  }

  /** Only the whole word counts: a longer word is a no. */
  lemma NotConfirmedLonger()
    ensures !Confirmed(Some("yess\n"))
  {
    assert LeadingSpace("yess\n") == 0;
    assert TrailingSpace("yess\n") == 1 + TrailingSpace("yess");
    assert TrailingSpace("yess") == 0;
    assert "yess\n"[..4] == "yess";
    assert TrimSpace("yess\n") == "yess";
  }

  /** Any answer that is confirmed is one to three letters long once trimmed. */
  lemma ConfirmedIsShort(line: string)
    requires Confirmed(Some(line))
    ensures 1 <= |TrimSpace(line)| <= 3
  {
    assert |Lower(TrimSpace(line))| == |TrimSpace(line)|;
  }

  /** What the Run body of `copy` does before it loads the configuration. */
  datatype Start =
    | SameLocation
    | DryRun(sourceEnv: string, sourcePath: string, targetEnv: string, targetPath: string)
    | Cancelled
    | Proceed(sourceEnv: string, sourcePath: string, targetEnv: string, targetPath: string)

  /** The fourth argument if given, else the source path. */
  function TargetPathOf(args: seq<string>): (p: string)
    requires |args| >= 3
    ensures p == args[1] || (|args| > 3 && p == args[3])
    ensures |args| > 3 ==> p == args[3]
  {
    if |args| > 3 then args[3] else args[1]
  }

  /**
   * The start of `copy`: arguments `source-env secret-path target-env [target-path]`
   * (at least three), the `--source-kv`/`--target-kv` flags as given, `--dry-run`,
   * `--approve`, and the reply to the prompt.
   */
  function CopyStart(args: seq<string>, sourceKV: string, targetKV: string,
                     dryRun: bool, autoApprove: bool, reply: Option<string>): (r: Start)
    requires |args| >= 3
    ensures r.SameLocation? <==> args[0] == args[2] && args[1] == TargetPathOf(args) && sourceKV == targetKV
    ensures r.DryRun? <==> !r.SameLocation? && dryRun
    ensures r.Cancelled? <==> !r.SameLocation? && !dryRun && !autoApprove && !Confirmed(reply)
    ensures r.DryRun? || r.Proceed? ==>
      r.sourceEnv == args[0] && r.sourcePath == args[1] && r.targetEnv == args[2] && r.targetPath == TargetPathOf(args)
  {
    var sourceEnv, sourcePath, targetEnv := args[0], args[1], args[2];
    var targetPath := if |args| > 3 then args[3] else sourcePath;
    if sourceEnv == targetEnv && sourcePath == targetPath && sourceKV == targetKV then SameLocation
    else if dryRun then DryRun(sourceEnv, sourcePath, targetEnv, targetPath)
    else if !autoApprove && !Confirmed(reply) then Cancelled
    else Proceed(sourceEnv, sourcePath, targetEnv, targetPath)
  }

  /** A copy that goes ahead never names the same env, path and engine on both sides. */
  lemma ProceedMovesSomewhere(args: seq<string>, sourceKV: string, targetKV: string,
                              dryRun: bool, autoApprove: bool, reply: Option<string>)
    requires |args| >= 3
    requires CopyStart(args, sourceKV, targetKV, dryRun, autoApprove, reply).Proceed?
    ensures var r := CopyStart(args, sourceKV, targetKV, dryRun, autoApprove, reply);
      r.sourceEnv != r.targetEnv || r.sourcePath != r.targetPath || sourceKV != targetKV
  {
  }

  /**
   * With three arguments and the same environment and engine on both sides, the copy
   * is refused whatever the other flags and the reply: the default target path is the
   * source path.
   */
  lemma DefaultTargetWithinEnvRefused(args: seq<string>, kv: string,
                                      dryRun: bool, autoApprove: bool, reply: Option<string>)
    requires |args| == 3 && args[0] == args[2]
    ensures CopyStart(args, kv, kv, dryRun, autoApprove, reply) == SameLocation
  {
  }

  /** Without `--approve` the copy goes ahead only on a confirmed reply. */
  lemma ProceedNeedsConsent(args: seq<string>, sourceKV: string, targetKV: string,
                            dryRun: bool, autoApprove: bool, reply: Option<string>)
    requires |args| >= 3
    requires CopyStart(args, sourceKV, targetKV, dryRun, autoApprove, reply).Proceed?
    ensures !dryRun && (autoApprove || Confirmed(reply))
  {
  }
}
