/**
 * The configuration file as the program sees it after parsing (pkg/config/config.go):
 * named store instances and the redaction policy, with its defaults.
 */
module Config {
  import opened Wrappers

  const VaultStore := "vault"
  const AwsStore := "awssecretsmanager"

  datatype EnvironmentConfig = EnvironmentConfig(url: string, tokenEnv: string, store: string, role: string)

  /** `RedactSecrets` and `RedactJSONValues` are `*bool`: None is an absent entry. */
  datatype Configs = Configs(
    environments: map<string, EnvironmentConfig>,
    redactedKeys: seq<string>,
    redactSecrets: Option<bool>,
    redactJSONValues: Option<bool>)

  const DefaultRedactedKeys: seq<string> := [
    "password", "secret", "token", "key", "credential", "auth", "pwd", "pass",
    "apikey", "api_key", "access_key", "secret_key", "private_key", "cert", "certificate"]

  /** Secrets are redacted unless the file says otherwise. */
  function ShouldRedactSecrets(c: Configs): (r: bool)
    ensures r <==> c.redactSecrets != Some(false)
  {
    if c.redactSecrets.None? then true else c.redactSecrets.value
  }

  /** JSON values are redacted only when the file asks for it. */
  function ShouldRedactJSONValues(c: Configs): (r: bool)
    ensures r <==> c.redactJSONValues == Some(true)
  {
    if c.redactJSONValues.None? then false else c.redactJSONValues.value
  }

  /** The configured patterns, or the defaults when none are configured; never empty. */
  function GetRedactedKeys(c: Configs): (r: seq<string>)
    ensures |r| > 0
    ensures r == c.redactedKeys <==> |c.redactedKeys| > 0
    ensures |c.redactedKeys| == 0 ==> r == DefaultRedactedKeys && |r| == 15
  {
    if |c.redactedKeys| == 0 then DefaultRedactedKeys else c.redactedKeys
  }

  datatype ConfigError =
    | EnvironmentNotFound(env: string)
    | UrlNotSpecified(env: string)
    | TokenEnvNotSpecified(env: string)
    | UnsupportedStore(store: string)

  /** The store kinds GetEnvironmentConfig lets through as written. */
  predicate SupportedAsWritten(store: string)
  {
    store == "" || store == VaultStore
  }

  /** A Vault entry needs both its URL and the name of its token variable. */
  predicate VaultEntryComplete(e: EnvironmentConfig)
  {
    e.store == VaultStore ==> e.url != "" && e.tokenEnv != ""
  }

  /**
   * The entry named `env`, checked in order: present, a Vault entry has a URL, a Vault
   * entry has a token variable, and the store is "" or "vault".
   */
  function GetEnvironmentConfig(c: Configs, env: string): (r: Result<EnvironmentConfig, ConfigError>)
    ensures env !in c.environments <==> r == Failure(EnvironmentNotFound(env))
    ensures r.Success? <==>
      env in c.environments && VaultEntryComplete(c.environments[env]) && SupportedAsWritten(c.environments[env].store)
    ensures r.Success? ==> r.value == c.environments[env]
    ensures env in c.environments && c.environments[env].store == VaultStore ==>
      (c.environments[env].url == "" ==> r == Failure(UrlNotSpecified(env))) &&
      (c.environments[env].url != "" && c.environments[env].tokenEnv == "" ==> r == Failure(TokenEnvNotSpecified(env)))
  {
    if env !in c.environments then Failure(EnvironmentNotFound(env))
    else
      var e := c.environments[env];
      if e.url == "" && e.store == VaultStore then Failure(UrlNotSpecified(env))
      else if e.tokenEnv == "" && e.store == VaultStore then Failure(TokenEnvNotSpecified(env))
      else if e.store != "" && e.store != VaultStore then Failure(UnsupportedStore(e.store))
      else Success(e)
  }

  /**
   * As written, no entry can name an AWS Secrets Manager instance: every caller that then
   * insists on the store "awssecretsmanager" can only fail.
   */
  lemma AwsEntryRejected(c: Configs, env: string)
    requires env in c.environments && c.environments[env].store == AwsStore
    ensures GetEnvironmentConfig(c, env) == Failure(UnsupportedStore(AwsStore))
  {
  }

  /** The store kinds the callers of GetEnvironmentConfig go on to handle. */
  predicate Supported(store: string)
  {
    store == "" || store == VaultStore || store == AwsStore
  }

  /**
   * GetEnvironmentConfig with "awssecretsmanager" among the accepted stores, which is what
   * its AWS and cross-store callers need; the rest of the model looks entries up with it.
   */
  function GetEnvironmentConfigWithAws(c: Configs, env: string): (r: Result<EnvironmentConfig, ConfigError>)
    ensures env !in c.environments <==> r == Failure(EnvironmentNotFound(env))
    ensures r.Success? <==>
      env in c.environments && VaultEntryComplete(c.environments[env]) && Supported(c.environments[env].store)
    ensures r.Success? ==> r.value == c.environments[env]
  {
    if env !in c.environments then Failure(EnvironmentNotFound(env))
    else
      var e := c.environments[env];
      if e.url == "" && e.store == VaultStore then Failure(UrlNotSpecified(env))
      else if e.tokenEnv == "" && e.store == VaultStore then Failure(TokenEnvNotSpecified(env))
      else if !Supported(e.store) then Failure(UnsupportedStore(e.store))
      else Success(e)
  }

  /** The correction changes nothing for an entry that does not name an AWS store. */
  lemma WithAwsAgreesElsewhere(c: Configs, env: string)
    requires env !in c.environments || c.environments[env].store != AwsStore
    ensures GetEnvironmentConfigWithAws(c, env) == GetEnvironmentConfig(c, env)
  {
  }

  /** With the correction, an AWS entry is returned as it stands. */
  lemma WithAwsAcceptsAws(c: Configs, env: string)
    requires env in c.environments && c.environments[env].store == AwsStore
    ensures GetEnvironmentConfigWithAws(c, env) == Success(c.environments[env])
  {
  }
}
