/**
 * The diff records every compare operation produces (`SecretDiff` in pkg/vault and
 * pkg/awssecretsmanager, `DiffItem` in pkg/comparison: the same six fields) and the loop
 * that appends one record per key of a document.
 *
 * Go iterates maps in no fixed order, so a list of diffs is never specified as a fixed
 * sequence: `Realizes(diffs, keys, entry)` says that `diffs` holds, in some order and once
 * each, the record `entry(k)` of every key `k` of `keys` that has one.
 */
module Diffs {
  import opened Wrappers

  /** The `Status` strings "+", "-" and "*". */
  datatype Status = Added | Removed | Modified

  /** Each status is written as its own one-character symbol, so the symbol tells the status. */
  function Symbol(s: Status): (r: string)
    ensures |r| == 1
    ensures r == "+" <==> s == Added
    ensures r == "-" <==> s == Removed
    ensures r == "*" <==> s == Modified
  {
    match s
    case Added => "+"
    case Removed => "-"
    case Modified => "*"
  }

  datatype SecretDiff = SecretDiff(
    key: string,
    current: string,
    target: string,
    diff: string,
    isRedacted: bool,
    status: Status)

  datatype SecretComparison = SecretComparison(path: string, diffs: seq<SecretDiff>)

  /** The informational first record of a one-sided comparison (key "INFO", never redacted). */
  function Info(current: string, target: string, status: Status): (d: SecretDiff)
    ensures d.key == "INFO" && !d.isRedacted && d.diff == ""
  {
    SecretDiff("INFO", current, target, "", false, status)
  }

  /** The same change seen from the other side: "+" and "-" trade places, and so do the values. */
  function Mirror(d: SecretDiff): (r: SecretDiff)
    ensures r.key == d.key && r.isRedacted == d.isRedacted
    ensures r.current == d.target && r.target == d.current
  {
    var s := match d.status
      case Added => Removed
      case Removed => Added
      case Modified => Modified;
    SecretDiff(d.key, d.target, d.current, d.diff, d.isRedacted, s)
  }

  lemma MirrorInvolutive(d: SecretDiff)
    ensures Mirror(Mirror(d)) == d
  {
  }

  /** Every entry function returns, when it returns a record, the record of its own key. */
  ghost predicate KeyedBy(entry: string -> Option<SecretDiff>)
  {
    forall k :: entry(k).Some? ==> entry(k).value.key == k
  }

  /** Some record of `diffs` is about key `k`. */
  ghost predicate HasEntry(diffs: seq<SecretDiff>, k: string)
  {
    exists i :: 0 <= i < |diffs| && diffs[i].key == k
  }

  /**
   * `diffs` lists, once each and in some order, `entry(k)` for the keys `k` of `keys` whose
   * entry is present, and nothing else.
   */
  ghost predicate Realizes(diffs: seq<SecretDiff>, keys: set<string>, entry: string -> Option<SecretDiff>)
  {
    && (forall i :: 0 <= i < |diffs| ==> diffs[i].key in keys && entry(diffs[i].key) == Some(diffs[i]))
    && (forall i, j :: 0 <= i < j < |diffs| ==> diffs[i].key != diffs[j].key)
    && (forall k :: k in keys && entry(k).Some? ==> HasEntry(diffs, k))
  }

  /** The keys of `keys` that get a record. */
  ghost function EntryKeys(keys: set<string>, entry: string -> Option<SecretDiff>): set<string>
  {
    set k | k in keys && entry(k).Some?
  }

  /**
   * The `for key, v := range doc` loop that appends one record per key, skipping the keys
   * already processed and the keys whose entry is absent (the `continue` of equal values).
   */
  method Emit(keys: set<string>, processed: set<string>, entry: string -> Option<SecretDiff>)
    returns (diffs: seq<SecretDiff>)
    requires KeyedBy(entry)
    ensures Realizes(diffs, keys - processed, entry)
  {
    diffs := [];
    var todo := keys;
    while todo != {}
      invariant todo <= keys
      invariant Realizes(diffs, (keys - todo) - processed, entry)
      invariant forall i :: 0 <= i < |diffs| ==> diffs[i].key !in todo
      decreases |todo|
    {
      var k :| k in todo;
      ghost var before := diffs;
      if k !in processed {
        match entry(k)
        case Some(d) =>
          diffs := diffs + [d];
          assert HasEntry(diffs, k) by { assert diffs[|diffs| - 1].key == k; }
        case None =>
      }
      todo := todo - {k};
      forall k' | k' in (keys - todo) - processed && entry(k').Some? ensures HasEntry(diffs, k') {
        if k' != k {
          var i :| 0 <= i < |before| && before[i].key == k';
          assert diffs[i].key == k';
        }
      }
    }
  }

  /**
   * The two loops of a compare of two documents: every source key, then every target key
   * not processed yet.
   */
  method EmitBoth(sourceKeys: set<string>, targetKeys: set<string>, entry: string -> Option<SecretDiff>)
    returns (diffs: seq<SecretDiff>)
    requires KeyedBy(entry)
    ensures Realizes(diffs, sourceKeys + targetKeys, entry)
  {
    var first := Emit(sourceKeys, {}, entry);
    var second := Emit(targetKeys, sourceKeys, entry);
    assert sourceKeys - {} == sourceKeys;
    RealizesConcat(first, sourceKeys, second, targetKeys - sourceKeys, entry);
    assert sourceKeys + (targetKeys - sourceKeys) == sourceKeys + targetKeys;
    diffs := first + second;
  }

  /** The INFO record of a missing document, then one record per key of the other one. */
  method EmitAfter(info: SecretDiff, keys: set<string>, entry: string -> Option<SecretDiff>)
    returns (diffs: seq<SecretDiff>)
    requires KeyedBy(entry)
    ensures |diffs| >= 1 && diffs[0] == info && Realizes(diffs[1..], keys, entry)
  {
    var listed := Emit(keys, {}, entry);
    assert keys - {} == keys;
    diffs := [info] + listed;
    assert diffs[1..] == listed;
  }

  /** A record is in a realization exactly when it is the entry of one of the keys. */
  lemma RealizesMembers(diffs: seq<SecretDiff>, keys: set<string>, entry: string -> Option<SecretDiff>, d: SecretDiff)
    requires KeyedBy(entry)
    requires Realizes(diffs, keys, entry)
    ensures d in diffs <==> d.key in keys && entry(d.key) == Some(d)
  {
    if d.key in keys && entry(d.key) == Some(d) {
      var i :| 0 <= i < |diffs| && diffs[i].key == d.key;
      assert diffs[i] == d;
    }
  }

  /** A key has a record in a realization exactly when it is one of the keys and has an entry. */
  lemma RealizesHasEntry(diffs: seq<SecretDiff>, keys: set<string>, entry: string -> Option<SecretDiff>, k: string)
    requires Realizes(diffs, keys, entry)
    ensures HasEntry(diffs, k) <==> k in keys && entry(k).Some?
  {
    if HasEntry(diffs, k) {
      var i :| 0 <= i < |diffs| && diffs[i].key == k;
      assert entry(diffs[i].key) == Some(diffs[i]);
    }
  }

  /** A realization has exactly one record per key that has an entry, whatever the order. */
  lemma {:induction false} RealizesCount(diffs: seq<SecretDiff>, keys: set<string>, entry: string -> Option<SecretDiff>)
    requires Realizes(diffs, keys, entry)
    ensures |diffs| == |EntryKeys(keys, entry)|
    decreases |diffs|
  {
    if diffs == [] {
      assert EntryKeys(keys, entry) == {};
    } else {
      var n := |diffs| - 1;
      var last := diffs[n].key;
      var rest := diffs[..n];
      var keys' := keys - {last};
      forall k | k in keys' && entry(k).Some? ensures HasEntry(rest, k) {
        var i :| 0 <= i < |diffs| && diffs[i].key == k;
        assert i < n;
        assert rest[i].key == k;
      }
      assert Realizes(rest, keys', entry);
      RealizesCount(rest, keys', entry);
      assert EntryKeys(keys', entry) == EntryKeys(keys, entry) - {last};
    }
  }

  /** Two loops over disjoint key sets realize, one after the other, the union. */
  lemma RealizesConcat(d1: seq<SecretDiff>, k1: set<string>, d2: seq<SecretDiff>, k2: set<string>, entry: string -> Option<SecretDiff>)
    requires Realizes(d1, k1, entry) && Realizes(d2, k2, entry)
    requires k1 !! k2
    ensures Realizes(d1 + d2, k1 + k2, entry)
  {
    var d := d1 + d2;
    forall k | k in k1 + k2 && entry(k).Some? ensures HasEntry(d, k) {
      if k in k1 {
        var i :| 0 <= i < |d1| && d1[i].key == k;
        assert d[i].key == k;
      } else {
        var i :| 0 <= i < |d2| && d2[i].key == k;
        assert d[|d1| + i].key == k;
      }
    }
    forall i, j | 0 <= i < j < |d| ensures d[i].key != d[j].key {
      if j < |d1| {
      } else if i >= |d1| {
        assert d[i] == d2[i - |d1|] && d[j] == d2[j - |d1|];
      } else {
        assert d[i].key in k1 && d[j] == d2[j - |d1|];
      }
    }
  }

  /** When no key has an entry, the loop appends nothing. */
  lemma RealizesNothing(diffs: seq<SecretDiff>, keys: set<string>, entry: string -> Option<SecretDiff>)
    requires Realizes(diffs, keys, entry)
    requires forall k :: k in keys ==> entry(k).None?
    ensures diffs == []
  {
    RealizesCount(diffs, keys, entry);
    assert EntryKeys(keys, entry) == {};
  }
}
