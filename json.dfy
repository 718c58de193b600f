/**
 * Decoded JSON values (what `json.Unmarshal` produces into an `interface{}`), the flat
 * key-value documents the secret stores hold, and the two recursive walkers over them:
 * member redaction and structure extraction.
 */
module Json {
  import opened Wrappers

  datatype Json =
    | JNull
    | JBool(b: bool)
    | JNumber(n: real)
    | JString(s: string)
    | JArray(items: seq<Json>)
    | JObject(members: map<string, Json>)

  /** A secret document: a flat map from key to value (Vault `Data`, a JSON-object AWS secret). */
  type Doc = map<string, Json>

  predicate IsContainer(j: Json)
  {
    j.JArray? || j.JObject?
  }

  /**
   * The library functions the model does not look inside: `json.Unmarshal` into an
   * `interface{}` (None: a syntax error), `json.Marshal`, `json.MarshalIndent(v, "", "  ")`
   * and `fmt.Sprintf("%v", v)` for values that are not strings.
   */
  datatype Codec = Codec(
    parse: string -> Option<Json>,
    marshal: Json -> string,
    marshalIndent: Json -> string,
    show: Json -> string)

  /** `fmt.Sprintf("%v", v)`: a string prints as itself, anything else as the library does. */
  function Render(codec: Codec, v: Json): string
  {
    if v.JString? then v.s else codec.show(v)
  }

  // ---------------------------------------------------------------------------------------
  // Member redaction (RedactJSONValues in the three packages, each with its own key test
  // and placeholder)
  // ---------------------------------------------------------------------------------------

  /**
   * Every object member whose key `redacted` selects becomes the string `placeholder`;
   * the other members and all array items are processed recursively; scalars stay.
   */
  function RedactMembers(j: Json, redacted: string -> bool, placeholder: string): (r: Json)
    ensures j.JObject? ==> r.JObject? && r.members.Keys == j.members.Keys
    ensures j.JArray? ==> r.JArray? && |r.items| == |j.items|
    ensures !IsContainer(j) ==> r == j
  {
    match j
    case JObject(m) =>
      JObject(map k | k in m :: if redacted(k) then JString(placeholder) else RedactMembers(m[k], redacted, placeholder))
    case JArray(a) =>
      JArray(seq(|a|, i requires 0 <= i < |a| => RedactMembers(a[i], redacted, placeholder)))
    case _ => j
  }

  /**
   * No selected member is visible: wherever the walker can reach an object member with a
   * selected key, that member already holds the placeholder.
   */
  ghost predicate Hides(j: Json, redacted: string -> bool, placeholder: string)
  {
    match j
    case JObject(m) =>
      forall k :: k in m ==> if redacted(k) then m[k] == JString(placeholder) else Hides(m[k], redacted, placeholder)
    case JArray(a) =>
      forall i :: 0 <= i < |a| ==> Hides(a[i], redacted, placeholder)
    case _ => true
  }

  /** After redaction no selected member shows its value, at any depth. */
  lemma {:induction false} RedactMembersHides(j: Json, redacted: string -> bool, placeholder: string)
    ensures Hides(RedactMembers(j, redacted, placeholder), redacted, placeholder)
  {
    match j
    case JObject(m) =>
      var r := RedactMembers(j, redacted, placeholder);
      forall k | k in m && !redacted(k) ensures Hides(r.members[k], redacted, placeholder) {
        RedactMembersHides(m[k], redacted, placeholder);
      }
    case JArray(a) =>
      var r := RedactMembers(j, redacted, placeholder);
      forall i | 0 <= i < |a| ensures Hides(r.items[i], redacted, placeholder) {
        RedactMembersHides(a[i], redacted, placeholder);
      }
    case _ =>
  }

  /** A value that already hides every selected member is left exactly as it is. */
  lemma {:induction false} RedactMembersKeepsHidden(j: Json, redacted: string -> bool, placeholder: string)
    requires Hides(j, redacted, placeholder)
    ensures RedactMembers(j, redacted, placeholder) == j
  {
    match j
    case JObject(m) =>
      var r := RedactMembers(j, redacted, placeholder);
      forall k | k in m ensures r.members[k] == m[k] {
        if !redacted(k) { RedactMembersKeepsHidden(m[k], redacted, placeholder); }
      }
      assert r.members == m;
    case JArray(a) =>
      var r := RedactMembers(j, redacted, placeholder);
      forall i | 0 <= i < |a| ensures r.items[i] == a[i] {
        RedactMembersKeepsHidden(a[i], redacted, placeholder);
      }
      assert r.items == a;
    case _ =>
  }

  /**
   * Redaction changes a value exactly when the value shows some selected member: this is
   * the `reflect.DeepEqual(data, redactedData)` test of TryParseAndRedactJSON.
   */
  lemma RedactMembersUnchangedIff(j: Json, redacted: string -> bool, placeholder: string)
    ensures RedactMembers(j, redacted, placeholder) == j <==> Hides(j, redacted, placeholder)
  {
    RedactMembersHides(j, redacted, placeholder);
    if Hides(j, redacted, placeholder) { RedactMembersKeepsHidden(j, redacted, placeholder); }
  }

  /** Two key tests that agree on every key redact every value alike. */
  lemma {:induction false} RedactMembersSamePolicy(j: Json, redacted: string -> bool, redacted': string -> bool,
                                                   placeholder: string)
    requires forall k :: redacted(k) == redacted'(k)
    ensures RedactMembers(j, redacted, placeholder) == RedactMembers(j, redacted', placeholder)
  {
    match j
    case JObject(m) =>
      var r, r' := RedactMembers(j, redacted, placeholder), RedactMembers(j, redacted', placeholder);
      forall k | k in m ensures r.members[k] == r'.members[k] {
        if !redacted(k) { RedactMembersSamePolicy(m[k], redacted, redacted', placeholder); }
      }
      assert r.members == r'.members;
    case JArray(a) =>
      var r, r' := RedactMembers(j, redacted, placeholder), RedactMembers(j, redacted', placeholder);
      forall i | 0 <= i < |a| ensures r.items[i] == r'.items[i] {
        RedactMembersSamePolicy(a[i], redacted, redacted', placeholder);
      }
      assert r.items == r'.items;
    case _ =>
  }

  /** Redacting twice is redacting once. */
  lemma RedactMembersIdempotent(j: Json, redacted: string -> bool, placeholder: string)
    ensures RedactMembers(RedactMembers(j, redacted, placeholder), redacted, placeholder)
         == RedactMembers(j, redacted, placeholder)
  {
    RedactMembersHides(j, redacted, placeholder);
    RedactMembersKeepsHidden(RedactMembers(j, redacted, placeholder), redacted, placeholder);
  }

  // ---------------------------------------------------------------------------------------
  // Structure extraction (extractJSONStructure, identical in pkg/vault/copy.go,
  // pkg/awssecretsmanager/copy.go and pkg/comparison/cross_store_copy.go)
  // ---------------------------------------------------------------------------------------

  /** Object keys and array lengths survive; every scalar, at any depth, becomes "". */
  function ExtractStructure(j: Json): (r: Json)
    ensures j.JObject? ==> r.JObject? && r.members.Keys == j.members.Keys
    ensures j.JArray? ==> r.JArray? && |r.items| == |j.items|
    ensures !IsContainer(j) ==> r == JString("")
  {
    match j
    case JObject(m) =>
      JObject(map k | k in m :: if IsContainer(m[k]) then ExtractStructure(m[k]) else JString(""))
    case JArray(a) =>
      JArray(seq(|a|, i requires 0 <= i < |a| => ExtractStructure(a[i])))
    case _ => JString("")
  }

  /** Every scalar in `j` is the empty string. */
  ghost predicate Blank(j: Json)
  {
    match j
    case JObject(m) => forall k :: k in m ==> Blank(m[k])
    case JArray(a) => forall i :: 0 <= i < |a| ==> Blank(a[i])
    case _ => j == JString("")
  }

  /** No value of the input survives extraction. */
  lemma {:induction false} ExtractStructureIsBlank(j: Json)
    ensures Blank(ExtractStructure(j))
  {
    match j
    case JObject(m) =>
      var r := ExtractStructure(j);
      forall k | k in m ensures Blank(r.members[k]) {
        ExtractStructureIsBlank(m[k]);
      }
    case JArray(a) =>
      var r := ExtractStructure(j);
      forall i | 0 <= i < |a| ensures Blank(r.items[i]) {
        ExtractStructureIsBlank(a[i]);
      }
    case _ =>
  }

  /** A value that is already blank is its own structure. */
  lemma {:induction false} ExtractStructureKeepsBlank(j: Json)
    requires Blank(j)
    ensures ExtractStructure(j) == j
  {
    match j
    case JObject(m) =>
      var r := ExtractStructure(j);
      forall k | k in m ensures r.members[k] == m[k] {
        ExtractStructureKeepsBlank(m[k]);
      }
      assert r.members == m;
    case JArray(a) =>
      var r := ExtractStructure(j);
      forall i | 0 <= i < |a| ensures r.items[i] == a[i] {
        ExtractStructureKeepsBlank(a[i]);
      }
      assert r.items == a;
    case _ =>
  }

  /** Extracting the structure of a structure changes nothing. */
  lemma ExtractStructureIdempotent(j: Json)
    ensures ExtractStructure(ExtractStructure(j)) == ExtractStructure(j)
  {
    ExtractStructureIsBlank(j);
    ExtractStructureKeepsBlank(ExtractStructure(j));
  }
}
