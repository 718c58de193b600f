/**
 * The `split` command: it moves the keys of a Vault secret that match the sensitive-key
 * patterns to a new secret, and rewrites the source without them.
 *
 * The Run body is modelled in three parts: the gate (dry run, confirmation), the
 * preflight (configuration, store kinds, engines, the source read, the test that the
 * target is new) and the move (the partition loop and the two ordered writes). The
 * pattern list, the clock reading and the reply to the prompt are parameters.
 */
module SplitCommand {
  import opened Wrappers
  import opened Text
  import opened Json
  import opened Config
  import opened VaultApi
  import opened VaultClient
  import VaultCopy
  import CopyCommand

  /** A key is sensitive when, lower-cased, it equals or contains some lower-cased pattern. */
  ghost predicate Sensitive(k: string, patterns: seq<string>)
  {
    exists i :: 0 <= i < |patterns| && (Lower(k) == Lower(patterns[i]) || Contains(Lower(k), Lower(patterns[i])))
  }

  /** The equality test is subsumed by the substring test: this is plain pattern matching. */
  lemma SensitiveIsPatternMatch(k: string, patterns: seq<string>)
    ensures Sensitive(k, patterns) <==> MatchesAnyPattern(Lower(k), patterns)
  {
    if Sensitive(k, patterns) {
      var i :| 0 <= i < |patterns| && (Lower(k) == Lower(patterns[i]) || Contains(Lower(k), Lower(patterns[i])));
      if Lower(k) == Lower(patterns[i]) {
        assert OccursAt(Lower(k), Lower(patterns[i]), 0);
      }
    }
  }

  /** The inner loop over the patterns, leaving at the first match. */
  method IsSensitive(k: string, patterns: seq<string>) returns (isSensitive: bool)
    ensures isSensitive <==> Sensitive(k, patterns)
  {
    isSensitive := false;
    var lowerKey := Lower(k);
    var i := 0;
    while i < |patterns|
      invariant 0 <= i <= |patterns|
      invariant !isSensitive
      invariant forall j :: 0 <= j < i ==>
        !(lowerKey == Lower(patterns[j]) || Contains(lowerKey, Lower(patterns[j])))
    {
      var lowerPattern := Lower(patterns[i]);
      if lowerKey == lowerPattern || Contains(lowerKey, lowerPattern) {
        isSensitive := true;
        break;
      }
      i := i + 1;
    }
  }

  /** The keys that go to the target, with their values. */
  ghost function SensitivePart(doc: Doc, patterns: seq<string>): Doc
  {
    map k | k in doc && Sensitive(k, patterns) :: doc[k]
  }

  /** What stays in the source. */
  ghost function RestPart(doc: Doc, patterns: seq<string>): Doc
  {
    map k | k in doc && !Sensitive(k, patterns) :: doc[k]
  }

  /** Every key of the source lands in exactly one of the two parts, with its value. */
  lemma PartitionSplitsDoc(doc: Doc, patterns: seq<string>)
    ensures SensitivePart(doc, patterns).Keys !! RestPart(doc, patterns).Keys
    ensures SensitivePart(doc, patterns) + RestPart(doc, patterns) == doc
  {
    var s, r := SensitivePart(doc, patterns), RestPart(doc, patterns);
    assert (s + r).Keys == doc.Keys by {
      forall k | k in doc ensures k in s + r {
        if Sensitive(k, patterns) { assert k in s; } else { assert k in r; }
      }
    }
  }

  predicate NoDuplicates(keys: seq<string>)
  {
    forall i, j :: 0 <= i < j < |keys| ==> keys[i] != keys[j]
  }

  /** A duplicate-free list holds as many names as the set of its names. */
  lemma {:induction false} ListedOnce(keys: seq<string>, names: set<string>)
    requires NoDuplicates(keys)
    requires forall k :: k in keys <==> k in names
    ensures |keys| == |names|
    decreases |keys|
  {
    if keys != [] {
      var rest := keys[1..];
      assert NoDuplicates(rest);
      forall k ensures k in rest <==> k in names - {keys[0]} {
        if k in rest {
          var j :| 0 <= j < |rest| && rest[j] == k;
          assert keys[j + 1] == k;
        }
        if k in names - {keys[0]} {
          var j :| 0 <= j < |keys| && keys[j] == k;
          assert j != 0;
          assert rest[j - 1] == k;
        }
      }
      ListedOnce(rest, names - {keys[0]});
    }
  }

  /** After the keys `done`, the two maps hold exactly their parts, with the source's values. */
  ghost predicate SplitSoFar(doc: Doc, patterns: seq<string>, done: set<string>, sensitiveData: Doc, newSourceData: Doc)
  {
    && (forall k :: k in sensitiveData <==> k in doc && k in done && Sensitive(k, patterns))
    && (forall k :: k in newSourceData <==> k in doc && k in done && !Sensitive(k, patterns))
    && (forall k | k in sensitiveData :: sensitiveData[k] == doc[k])
    && (forall k | k in newSourceData :: newSourceData[k] == doc[k])
  }

  lemma SplitStep(doc: Doc, patterns: seq<string>, done: set<string>, sensitiveData: Doc, newSourceData: Doc, k: string)
    requires SplitSoFar(doc, patterns, done, sensitiveData, newSourceData)
    requires k in doc
    ensures Sensitive(k, patterns) ==>
      SplitSoFar(doc, patterns, done + {k}, sensitiveData[k := doc[k]], newSourceData)
    ensures !Sensitive(k, patterns) ==>
      SplitSoFar(doc, patterns, done + {k}, sensitiveData, newSourceData[k := doc[k]])
  {
  }

  lemma SplitComplete(doc: Doc, patterns: seq<string>, sensitiveData: Doc, newSourceData: Doc)
    requires SplitSoFar(doc, patterns, doc.Keys, sensitiveData, newSourceData)
    ensures sensitiveData == SensitivePart(doc, patterns)
    ensures newSourceData == RestPart(doc, patterns)
  {
    assert sensitiveData.Keys == SensitivePart(doc, patterns).Keys;
    assert newSourceData.Keys == RestPart(doc, patterns).Keys;
  }

  /**
   * The loop over the source secret: it fills the target part, the new source and the
   * list of moved keys, and notes whether any key was sensitive.
   */
  method Partition(doc: Doc, patterns: seq<string>)
    returns (sensitiveData: Doc, newSourceData: Doc, splitKeys: seq<string>, found: bool)
    ensures sensitiveData == SensitivePart(doc, patterns)
    ensures newSourceData == RestPart(doc, patterns)
    ensures forall k :: k in splitKeys <==> k in sensitiveData
    ensures NoDuplicates(splitKeys)
    ensures found <==> sensitiveData != map[]
  {
    sensitiveData, newSourceData, splitKeys, found := map[], map[], [], false;
    var todo := doc.Keys;
    while todo != {}
      invariant todo <= doc.Keys
      invariant SplitSoFar(doc, patterns, doc.Keys - todo, sensitiveData, newSourceData)
      invariant forall k :: k in splitKeys <==> k in sensitiveData
      invariant NoDuplicates(splitKeys)
      invariant found <==> splitKeys != []
      decreases todo
    {
      var k :| k in todo;
      var isSensitive := IsSensitive(k, patterns);
      SplitStep(doc, patterns, doc.Keys - todo, sensitiveData, newSourceData, k);
      assert doc.Keys - (todo - {k}) == (doc.Keys - todo) + {k};
      if isSensitive {
        assert k !in splitKeys;
        sensitiveData := sensitiveData[k := doc[k]];
        splitKeys := splitKeys + [k];
        found := true;
      } else {
        newSourceData := newSourceData[k := doc[k]];
      }
      todo := todo - {k};
    }
    assert doc.Keys - todo == doc.Keys;
    SplitComplete(doc, patterns, sensitiveData, newSourceData);
    if found {
      assert splitKeys[0] in sensitiveData;
    }
  }

  /** getKeysFromMap: the names of the keys, each once, in the order the map is ranged. */
  method KeysOf(m: Doc) returns (keys: seq<string>)
    ensures forall k :: k in keys <==> k in m
    ensures NoDuplicates(keys)
  {
    keys := [];
    var todo := m.Keys;
    while todo != {}
      invariant todo <= m.Keys
      invariant forall k :: k in keys <==> k in m && k !in todo
      invariant NoDuplicates(keys)
      decreases todo
    {
      var k :| k in todo;
      keys := keys + [k];
      todo := todo - {k};
    }
  }

  datatype SplitError =
    | SourceConfig(source: ConfigError)
    | TargetConfig(target: ConfigError)
    | NotVault
    | NoSourceKV
    | SourceUnreadable(fetch: Fetch)
    | EmptySource
    | TargetExists(path: string)
    | TargetCheckFailed(fetch: Fetch)
    | NoPatterns
    | NoMatch(sourceKeys: seq<string>, patterns: seq<string>)
    | TargetWriteFailed
    /** The target holds the sensitive keys but the source still holds them too. */
    | SourceNotUpdated

  /** One line of the split log: key names only, never values. */
  datatype SplitLogEntry = SplitLogEntry(
    timestamp: string,
    sourceEnv: string,
    sourcePath: string,
    targetPath: string,
    sourceStore: string,
    success: bool,
    message: string,
    splitKeys: seq<string>)

  const SplitMessage := "Successfully split sensitive keys"

  /** A flag's value, or the fallback when the flag is left empty. */
  function DefaultTo(flag: string, fallback: string): string
  {
    if flag == "" then fallback else flag
  }

  /** The client and the source document the move starts from. */
  datatype Ready = Ready(c: Client, doc: Doc)

  /**
   * The guards before any write: `--target-env` defaults to the source environment, both
   * entries must name Vault, `--source-kv` is required and `--target-kv` defaults to it.
   * The target engine is mounted (and stays mounted whatever follows); the source is read,
   * and then the target path, both through the client on the source engine.
   */
  function Preflight(configs: Configs, s: VaultState, sourceEnv: string, targetEnvFlag: string,
                     sourcePath: string, targetPath: string, sourceKV: string, targetKVFlag: string)
    : (r: (Result<Ready, SplitError>, VaultState))
    ensures r.1.secrets == s.secrets && r.1.unreadable == s.unreadable && r.1.unwritable == s.unwritable
    ensures r.1.mounts <= s.mounts + {MountPath(DefaultTo(targetKVFlag, sourceKV))}
    ensures var sc := GetEnvironmentConfig(configs, sourceEnv);
      sc.Failure? ==> r == (Failure(SourceConfig(sc.error)), s)
    ensures var sc := GetEnvironmentConfig(configs, sourceEnv);
      var tc := GetEnvironmentConfig(configs, DefaultTo(targetEnvFlag, sourceEnv));
      sc.Success? && tc.Failure? ==> r == (Failure(TargetConfig(tc.error)), s)
    ensures var sc := GetEnvironmentConfig(configs, sourceEnv);
      var tc := GetEnvironmentConfig(configs, DefaultTo(targetEnvFlag, sourceEnv));
      sc.Success? && tc.Success? && (sc.value.store != VaultStore || tc.value.store != VaultStore) ==>
        r == (Failure(NotVault), s)
    ensures var sc := GetEnvironmentConfig(configs, sourceEnv);
      var tc := GetEnvironmentConfig(configs, DefaultTo(targetEnvFlag, sourceEnv));
      sc.Success? && tc.Success? && sc.value.store == VaultStore && tc.value.store == VaultStore && sourceKV == "" ==>
        r == (Failure(NoSourceKV), s)
    ensures var sc := GetEnvironmentConfig(configs, sourceEnv);
      var tc := GetEnvironmentConfig(configs, DefaultTo(targetEnvFlag, sourceEnv));
      sc.Success? && tc.Success? && sc.value.store == VaultStore && tc.value.store == VaultStore && sourceKV != "" ==>
        var c := NewClient(sc.value, configs, sourceEnv, sourceKV);
        var mounted := VaultCopy.EnsureKVEngineExists(s, DefaultTo(targetKVFlag, sourceKV));
        var source := GetSecret(c, mounted, sourcePath);
        var target := GetSecret(c, mounted, targetPath);
        && r.1 == mounted
        && (!source.Fetched? ==> r.0 == Failure(SourceUnreadable(source)))
        && (source == Fetched(None) ==> r.0 == Failure(EmptySource))
        && (source.Fetched? && source.data.Some? && target.Fetched? ==> r.0 == Failure(TargetExists(targetPath)))
        && (source.Fetched? && source.data.Some? && !Usable(target) ==> r.0 == Failure(TargetCheckFailed(target)))
        && (source.Fetched? && source.data.Some? && target.NotFound? ==> r.0 == Success(Ready(c, source.data.value)))
    ensures r.0.Success? ==>
      && GetEnvironmentConfig(configs, sourceEnv).Success?
      && GetEnvironmentConfig(configs, sourceEnv).value.store == VaultStore
      && GetEnvironmentConfig(configs, DefaultTo(targetEnvFlag, sourceEnv)).Success?
      && GetEnvironmentConfig(configs, DefaultTo(targetEnvFlag, sourceEnv)).value.store == VaultStore
      && r.1 == VaultCopy.EnsureKVEngineExists(s, DefaultTo(targetKVFlag, sourceKV))
      && r.0.value.c == NewClient(GetEnvironmentConfig(configs, sourceEnv).value, configs, sourceEnv, sourceKV)
      && GetSecret(r.0.value.c, r.1, sourcePath) == Fetched(Some(r.0.value.doc))
      && GetSecret(r.0.value.c, r.1, targetPath) == NotFound
  {
    var targetEnv := DefaultTo(targetEnvFlag, sourceEnv);
    var sc := GetEnvironmentConfig(configs, sourceEnv);
    if sc.Failure? then (Failure(SourceConfig(sc.error)), s)
    else
      var tc := GetEnvironmentConfig(configs, targetEnv);
      if tc.Failure? then (Failure(TargetConfig(tc.error)), s)
      else if sc.value.store != VaultStore || tc.value.store != VaultStore then (Failure(NotVault), s)
      else if sourceKV == "" then (Failure(NoSourceKV), s)
      else
        var targetKV := DefaultTo(targetKVFlag, sourceKV);
        var c := NewClient(sc.value, configs, sourceEnv, sourceKV);
        var mounted := VaultCopy.EnsureKVEngineExists(s, targetKV);
        var source := GetSecret(c, mounted, sourcePath);
        if !source.Fetched? then (Failure(SourceUnreadable(source)), mounted)
        else if source.data.None? then (Failure(EmptySource), mounted)
        else
          var target := GetSecret(c, mounted, targetPath);
          if target.Fetched? then (Failure(TargetExists(targetPath)), mounted)
          else if !target.NotFound? then (Failure(TargetCheckFailed(target)), mounted)
          else (Success(Ready(c, source.data.value)), mounted)
  }

  /** `WriteSecret` puts a document at a path of the client's engine. */
  function WriteSecret(c: Client, s: VaultState, path: string, doc: Doc): Option<VaultState>
  {
    KvPut(s, At(c.kvEngine, path), doc)
  }

  /**
   * What the move leaves behind: no pattern or no matching key writes nothing; otherwise
   * the target is written first, and only then the source, without the moved keys.
   */
  ghost predicate Moved(c: Client, patterns: seq<string>, s: VaultState, sourcePath: string, targetPath: string,
                        doc: Doc, timestamp: string, sourceEnv: string,
                        r: Result<SplitLogEntry, SplitError>, s': VaultState)
  {
    if patterns == [] then r == Failure(NoPatterns) && s' == s
    else if SensitivePart(doc, patterns) == map[] then
      && r.Failure? && r.error.NoMatch? && r.error.patterns == patterns
      && (forall k :: k in r.error.sourceKeys <==> k in doc) && NoDuplicates(r.error.sourceKeys)
      && s' == s
    else
      var put1 := WriteSecret(c, s, targetPath, SensitivePart(doc, patterns));
      if put1.None? then r == Failure(TargetWriteFailed) && s' == s
      else
        var put2 := WriteSecret(c, put1.value, sourcePath, RestPart(doc, patterns));
        if put2.None? then r == Failure(SourceNotUpdated) && s' == put1.value
        else
          && s' == put2.value
          && r.Success?
          && r.value == SplitLogEntry(timestamp, sourceEnv, sourcePath, targetPath, VaultStore, true,
                                      SplitMessage, r.value.splitKeys)
          && (forall k :: k in r.value.splitKeys <==> k in SensitivePart(doc, patterns))
          && NoDuplicates(r.value.splitKeys)
  }

  /** The partition and the two writes, from a source document already read. */
  method Move(c: Client, patterns: seq<string>, s: VaultState, sourcePath: string, targetPath: string,
              doc: Doc, timestamp: string, sourceEnv: string)
    returns (r: Result<SplitLogEntry, SplitError>, s': VaultState)
    ensures Moved(c, patterns, s, sourcePath, targetPath, doc, timestamp, sourceEnv, r, s')
  {
    s' := s;
    if patterns == [] {
      return Failure(NoPatterns), s';
    }
    var sensitiveData, newSourceData, splitKeys, found := Partition(doc, patterns);
    if !found {
      var sourceKeys := KeysOf(doc);
      return Failure(NoMatch(sourceKeys, patterns)), s';
    }
    var put1 := WriteSecret(c, s, targetPath, sensitiveData);
    if put1.None? {
      return Failure(TargetWriteFailed), s';
    }
    s' := put1.value;
    var put2 := WriteSecret(c, s', sourcePath, newSourceData);
    if put2.None? {
      return Failure(SourceNotUpdated), s';
    }
    s' := put2.value;
    r := Success(SplitLogEntry(timestamp, sourceEnv, sourcePath, targetPath, VaultStore, true,
                               SplitMessage, splitKeys));
  }

  /** How the Run body of `split` ends. */
  datatype Outcome = DryRun | Cancelled | Failed(error: SplitError) | Split(entry: SplitLogEntry)

  /**
   * The Run body of `split source-env source-path target-path`, with the flags
   * `--target-env`, `--source-kv`, `--target-kv`, `--dry-run` and `--approve`.
   */
  method SplitSecret(configs: Configs, patterns: seq<string>, s: VaultState, timestamp: string,
                     sourceEnv: string, sourcePath: string, targetPath: string,
                     targetEnvFlag: string, sourceKV: string, targetKVFlag: string,
                     dryRun: bool, autoApprove: bool, reply: Option<string>)
    returns (o: Outcome, s': VaultState)
    ensures dryRun ==> o == DryRun && s' == s
    ensures !dryRun && !autoApprove && !CopyCommand.Confirmed(reply) ==> o == Cancelled && s' == s
    ensures !dryRun && (autoApprove || CopyCommand.Confirmed(reply)) ==>
      var pre := Preflight(configs, s, sourceEnv, targetEnvFlag, sourcePath, targetPath, sourceKV, targetKVFlag);
      && (pre.0.Failure? ==> o == Failed(pre.0.error) && s' == pre.1)
      && (pre.0.Success? ==> exists r ::
            && Moved(pre.0.value.c, patterns, pre.1, sourcePath, targetPath, pre.0.value.doc, timestamp, sourceEnv, r, s')
            && o == (if r.Success? then Split(r.value) else Failed(r.error)))
  {
    if dryRun {
      return DryRun, s;
    }
    if !autoApprove && !CopyCommand.Confirmed(reply) {
      return Cancelled, s;
    }
    var pre := Preflight(configs, s, sourceEnv, targetEnvFlag, sourcePath, targetPath, sourceKV, targetKVFlag);
    if pre.0.Failure? {
      return Failed(pre.0.error), pre.1;
    }
    var r;
    r, s' := Move(pre.0.value.c, patterns, pre.1, sourcePath, targetPath, pre.0.value.doc, timestamp, sourceEnv);
    o := if r.Success? then Split(r.value) else Failed(r.error);
  }

  /** A split only ever goes ahead onto a path other than its source. */
  lemma ReadyMeansNewTarget(configs: Configs, s: VaultState, sourceEnv: string, targetEnvFlag: string,
                            sourcePath: string, targetPath: string, sourceKV: string, targetKVFlag: string)
    requires Preflight(configs, s, sourceEnv, targetEnvFlag, sourcePath, targetPath, sourceKV, targetKVFlag).0.Success?
    ensures sourcePath != targetPath
  {
  }

  /** Only a failed source write, after the target write, leaves the secrets changed. */
  lemma FailedMoveWritesNothing(c: Client, patterns: seq<string>, s: VaultState, sourcePath: string, targetPath: string,
                                doc: Doc, timestamp: string, sourceEnv: string,
                                r: Result<SplitLogEntry, SplitError>, s': VaultState)
    requires Moved(c, patterns, s, sourcePath, targetPath, doc, timestamp, sourceEnv, r, s')
    requires r.Failure? && r.error != SourceNotUpdated
    ensures s' == s
  {
  }

  /**
   * A completed split: the target reads back exactly the sensitive keys, the source the
   * rest, the two together are the original secret, and the log lists each moved key once.
   */
  lemma SplitMovesKeys(configs: Configs, s: VaultState, sourceEnv: string, targetEnvFlag: string,
                       sourcePath: string, targetPath: string, sourceKV: string, targetKVFlag: string,
                       patterns: seq<string>, timestamp: string, r: Result<SplitLogEntry, SplitError>, s': VaultState)
    requires Preflight(configs, s, sourceEnv, targetEnvFlag, sourcePath, targetPath, sourceKV, targetKVFlag).0.Success?
    requires var pre := Preflight(configs, s, sourceEnv, targetEnvFlag, sourcePath, targetPath, sourceKV, targetKVFlag);
      Moved(pre.0.value.c, patterns, pre.1, sourcePath, targetPath, pre.0.value.doc, timestamp, sourceEnv, r, s')
    requires r.Success?
    ensures var pre := Preflight(configs, s, sourceEnv, targetEnvFlag, sourcePath, targetPath, sourceKV, targetKVFlag);
      var c, doc := pre.0.value.c, pre.0.value.doc;
      && GetSecret(c, s', targetPath) == Fetched(Some(SensitivePart(doc, patterns)))
      && GetSecret(c, s', sourcePath) == Fetched(Some(RestPart(doc, patterns)))
      && SensitivePart(doc, patterns) + RestPart(doc, patterns) == doc
      && SensitivePart(doc, patterns).Keys !! RestPart(doc, patterns).Keys
      && |r.value.splitKeys| == |SensitivePart(doc, patterns)|
  {
    var pre := Preflight(configs, s, sourceEnv, targetEnvFlag, sourcePath, targetPath, sourceKV, targetKVFlag);
    var c, doc, s1 := pre.0.value.c, pre.0.value.doc, pre.1;
    var target, source := At(c.kvEngine, targetPath), At(c.kvEngine, sourcePath);
    assert target != source;
    assert target !in s1.unreadable && source !in s1.unreadable;
    var put1 := WriteSecret(c, s1, targetPath, SensitivePart(doc, patterns));
    assert put1.Some?;
    assert s'.secrets == s1.secrets[target := Some(SensitivePart(doc, patterns))][source := Some(RestPart(doc, patterns))];
    PartitionSplitsDoc(doc, patterns);
    ListedOnce(r.value.splitKeys, SensitivePart(doc, patterns).Keys);
  }

  /**
   * A failed source write after a successful target write is not rolled back: the
   * sensitive keys are then stored both in the target and, unchanged, in the source.
   */
  lemma PartialSplitDuplicates(configs: Configs, s: VaultState, sourceEnv: string, targetEnvFlag: string,
                               sourcePath: string, targetPath: string, sourceKV: string, targetKVFlag: string,
                               patterns: seq<string>, timestamp: string, r: Result<SplitLogEntry, SplitError>, s': VaultState)
    requires Preflight(configs, s, sourceEnv, targetEnvFlag, sourcePath, targetPath, sourceKV, targetKVFlag).0.Success?
    requires var pre := Preflight(configs, s, sourceEnv, targetEnvFlag, sourcePath, targetPath, sourceKV, targetKVFlag);
      Moved(pre.0.value.c, patterns, pre.1, sourcePath, targetPath, pre.0.value.doc, timestamp, sourceEnv, r, s')
    requires r == Failure(SourceNotUpdated)
    ensures var pre := Preflight(configs, s, sourceEnv, targetEnvFlag, sourcePath, targetPath, sourceKV, targetKVFlag);
      var c, doc := pre.0.value.c, pre.0.value.doc;
      && GetSecret(c, s', targetPath) == Fetched(Some(SensitivePart(doc, patterns)))
      && GetSecret(c, s', sourcePath) == Fetched(Some(doc))
      && SensitivePart(doc, patterns) != map[]
  {
    var pre := Preflight(configs, s, sourceEnv, targetEnvFlag, sourcePath, targetPath, sourceKV, targetKVFlag);
    var c, s1 := pre.0.value.c, pre.1;
    assert At(c.kvEngine, targetPath) != At(c.kvEngine, sourcePath);
  }
}
