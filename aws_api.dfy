/**
 * The part of AWS Secrets Manager the program touches through the Go SDK
 * (`GetSecretValue`, `CreateSecret`, `UpdateSecret`), as a value: one account, the one the
 * client's role reaches. Calls that fail for reasons other than a missing secret
 * (permissions, network) are given by two sets of secret names.
 */
module AwsApi {
  import opened Wrappers

  /** A secret holds either a `SecretString` or a `SecretBinary`. */
  datatype AwsValue = SecretString(s: string) | SecretBinary

  datatype AwsState = AwsState(
    secrets: map<string, AwsValue>,
    unreadable: set<string>,
    unwritable: set<string>)

  /** What `GetSecretValue` can answer: the value, ResourceNotFoundException, or another error. */
  datatype SmRead = Stored(value: AwsValue) | ResourceNotFound | Denied

  function GetSecretValue(s: AwsState, name: string): (r: SmRead)
    ensures r.Denied? <==> name in s.unreadable
    ensures r.Stored? <==> name !in s.unreadable && name in s.secrets
    ensures r.Stored? ==> r.value == s.secrets[name]
  {
    if name in s.unreadable then Denied
    else if name in s.secrets then Stored(s.secrets[name])
    else ResourceNotFound
  }

  /** `CreateSecret`: fails when the name is taken or may not be written. */
  function CreateSecret(s: AwsState, name: string, value: string): (r: Option<AwsState>)
    ensures r.Some? <==> name !in s.secrets && name !in s.unwritable
    ensures r.Some? ==> r.value == s.(secrets := s.secrets[name := SecretString(value)])
  {
    if name !in s.secrets && name !in s.unwritable then Some(s.(secrets := s.secrets[name := SecretString(value)]))
    else None
  }

  /** `UpdateSecret`: fails when there is no such secret or it may not be written. */
  function UpdateSecret(s: AwsState, name: string, value: string): (r: Option<AwsState>)
    ensures r.Some? <==> name in s.secrets && name !in s.unwritable
    ensures r.Some? ==> r.value == s.(secrets := s.secrets[name := SecretString(value)])
  {
    if name in s.secrets && name !in s.unwritable then Some(s.(secrets := s.secrets[name := SecretString(value)]))
    else None
  }

  /** Whichever of the two calls succeeds, the next read returns the string written. */
  lemma WriteThenRead(s: AwsState, name: string, value: string)
    requires name !in s.unreadable
    ensures CreateSecret(s, name, value).Some? ==>
      GetSecretValue(CreateSecret(s, name, value).value, name) == Stored(SecretString(value))
    ensures UpdateSecret(s, name, value).Some? ==>
      GetSecretValue(UpdateSecret(s, name, value).value, name) == Stored(SecretString(value))
  {
  }
}
