/**
 * The layered secrets store: the user-secrets source of each listed assembly, in
 * list order, followed by the environment variables. A key is answered by the
 * last source that defines it, so environment variables override user secrets
 * and a later assembly overrides an earlier one.
 */
module Secrets {
  import opened Wrappers

  /** A .NET assembly, identified by its name; it selects one user-secrets store. */
  datatype Assembly = Assembly(name: string)

  /** One configuration source: the keys it defines and their values. */
  type Layer = map<string, string>

  /** A built configuration: its sources in the order they were added. */
  type Configuration = seq<Layer>

  /** What `GetRequiredSecret` throws: `ArgumentNullException` built from one string, its parameter name. */
  datatype SecretError = ArgumentNull(paramName: string)

  /** The text `GetRequiredSecret` passes to the exception when the secret is missing. */
  function MissingSecretMessage(secretName: string): string {
    "Failed to find secret with name:'" + secretName + "'"
  }

  /** The configuration indexer: the value from the last source that defines `key`, if any. */
  function Lookup(c: Configuration, key: string): Option<string>
    decreases |c|
  {
    if c == [] then None
    else if key in c[|c| - 1] then Some(c[|c| - 1][key])
    else Lookup(c[..|c| - 1], key)
  }

  /** Source `i` is the highest-priority source defining `key`. */
  predicate IsWinningLayer(c: Configuration, key: string, i: int) {
    0 <= i < |c| && key in c[i] && forall j :: i < j < |c| ==> key !in c[j]
  }

  /**
   * The lookup finds nothing exactly when no source defines the key, and otherwise
   * returns the value of the highest-priority source defining it.
   */
  lemma {:induction false} LookupIsHighestPriority(c: Configuration, key: string)
    ensures Lookup(c, key).None? <==> forall i :: 0 <= i < |c| ==> key !in c[i]
    ensures forall i :: IsWinningLayer(c, key, i) ==> Lookup(c, key) == Some(c[i][key])
    ensures Lookup(c, key).Some? ==> exists i :: IsWinningLayer(c, key, i)
    decreases |c|
  {
    if c != [] {
      var front := c[..|c| - 1];
      var last := |c| - 1;
      LookupIsHighestPriority(front, key);
      if key in c[last] {
        assert IsWinningLayer(c, key, last);
        forall i | IsWinningLayer(c, key, i) ensures i == last { }
      } else {
        forall i | IsWinningLayer(c, key, i) ensures IsWinningLayer(front, key, i) {
          assert i < last;
        }
        if Lookup(c, key).Some? {
          var i :| IsWinningLayer(front, key, i);
          assert IsWinningLayer(c, key, i);
        }
        forall i | 0 <= i < |front| ensures front[i] == c[i] { }
      }
    }
  }

  /** The user-secrets source of an assembly; an assembly with no secrets file contributes no keys. */
  function UserSecretsSource(userSecrets: map<Assembly, Layer>, assembly: Assembly): Layer {
    if assembly in userSecrets then userSecrets[assembly] else map[]
  }

  /** The user-secrets sources of the assemblies, in list order. */
  function UserSecretsLayers(assemblies: seq<Assembly>, userSecrets: map<Assembly, Layer>): (r: Configuration)
    ensures |r| == |assemblies|
    ensures forall k :: 0 <= k < |assemblies| ==> r[k] == UserSecretsSource(userSecrets, assemblies[k])
    decreases |assemblies|
  {
    if assemblies == [] then []
    else
      UserSecretsLayers(assemblies[..|assemblies| - 1], userSecrets) +
      [UserSecretsSource(userSecrets, assemblies[|assemblies| - 1])]
  }

  /** The configuration `CreateConfiguration` builds: user secrets per assembly, then the environment. */
  function ConfigurationOf(assemblies: seq<Assembly>, userSecrets: map<Assembly, Layer>, environment: Layer): Configuration {
    UserSecretsLayers(assemblies, userSecrets) + [environment]
  }

  /** The source of the configuration's `k`-th layer. */
  lemma ConfigurationLayers(assemblies: seq<Assembly>, userSecrets: map<Assembly, Layer>, environment: Layer)
    ensures |ConfigurationOf(assemblies, userSecrets, environment)| == |assemblies| + 1
    ensures forall k :: 0 <= k < |assemblies| ==>
              ConfigurationOf(assemblies, userSecrets, environment)[k] == UserSecretsSource(userSecrets, assemblies[k])
    ensures ConfigurationOf(assemblies, userSecrets, environment)[|assemblies|] == environment
  {
  }

  /** An environment variable overrides every user secret with the same name. */
  lemma EnvironmentOverrides(assemblies: seq<Assembly>, userSecrets: map<Assembly, Layer>, environment: Layer, key: string)
    requires key in environment
    ensures Lookup(ConfigurationOf(assemblies, userSecrets, environment), key) == Some(environment[key])
  {
    var c := ConfigurationOf(assemblies, userSecrets, environment);
    LookupIsHighestPriority(c, key);
    assert IsWinningLayer(c, key, |assemblies|);
  }

  /**
   * Without an environment variable of that name, the last assembly whose user
   * secrets define the key supplies its value, whatever earlier assemblies say.
   */
  lemma LaterAssemblyOverrides(assemblies: seq<Assembly>, userSecrets: map<Assembly, Layer>, environment: Layer, key: string, j: int)
    requires key !in environment
    requires 0 <= j < |assemblies| && key in UserSecretsSource(userSecrets, assemblies[j])
    requires forall k :: j < k < |assemblies| ==> key !in UserSecretsSource(userSecrets, assemblies[k])
    ensures Lookup(ConfigurationOf(assemblies, userSecrets, environment), key) ==
            Some(UserSecretsSource(userSecrets, assemblies[j])[key])
  {
    var c := ConfigurationOf(assemblies, userSecrets, environment);
    LookupIsHighestPriority(c, key);
    ConfigurationLayers(assemblies, userSecrets, environment);
    assert IsWinningLayer(c, key, j);
  }

  /** A key that neither the environment nor any assembly's user secrets define is absent. */
  lemma AbsentEverywhere(assemblies: seq<Assembly>, userSecrets: map<Assembly, Layer>, environment: Layer, key: string)
    requires key !in environment
    requires forall k :: 0 <= k < |assemblies| ==> key !in UserSecretsSource(userSecrets, assemblies[k])
    ensures Lookup(ConfigurationOf(assemblies, userSecrets, environment), key) == None
  {
    var c := ConfigurationOf(assemblies, userSecrets, environment);
    LookupIsHighestPriority(c, key);
    ConfigurationLayers(assemblies, userSecrets, environment);
  }

  /**
   * A secrets manager over a configuration fixed at construction. `configuration`
   * is a `const`, so no lookup can change it and repeated lookups agree.
   */
  class SecretsManager {
    const configuration: Configuration

    /** Builds the configuration from the user secrets of `assemblyList` and the environment. */
    constructor (assemblyList: seq<Assembly>, userSecrets: map<Assembly, Layer>, environment: Layer)
      ensures configuration == ConfigurationOf(assemblyList, userSecrets, environment)
    {
      var built := CreateConfiguration(assemblyList, userSecrets, environment);
      configuration := built;
    }

    /** The parameterless form: the user secrets of the default assembly only. */
    constructor Default(entry: Option<Assembly>, executing: Assembly, userSecrets: map<Assembly, Layer>, environment: Layer)
      ensures configuration == ConfigurationOf([GetDefaultAssembly(entry, executing)], userSecrets, environment)
    {
      var built := CreateConfiguration([GetDefaultAssembly(entry, executing)], userSecrets, environment);
      configuration := built;
    }

    /** The entry assembly when there is one (`entry`), otherwise the executing assembly. */
    static function GetDefaultAssembly(entry: Option<Assembly>, executing: Assembly): (a: Assembly)
      ensures entry.Some? ==> a == entry.value
      ensures entry.None? ==> a == executing
    {
      match entry
      case Some(e) => e
      case None => executing
    }

    /** Adds one user-secrets source per assembly, in order, then the environment variables. */
    static method CreateConfiguration(assemblyList: seq<Assembly>, userSecrets: map<Assembly, Layer>, environment: Layer)
      returns (built: Configuration)
      ensures built == ConfigurationOf(assemblyList, userSecrets, environment)
    {
      var builder: Configuration := [];
      for i := 0 to |assemblyList|
        invariant builder == UserSecretsLayers(assemblyList[..i], userSecrets)
      {
        assert assemblyList[..i + 1][..i] == assemblyList[..i];
        builder := builder + [UserSecretsSource(userSecrets, assemblyList[i])];
      }
      assert assemblyList[..|assemblyList|] == assemblyList;
      built := builder + [environment];
    }

    /** The value of the highest-priority source defining `secretName`, or `None` when no source does. */
    function GetSecret(secretName: string): (r: Option<string>)
      ensures r.None? <==> forall i :: 0 <= i < |configuration| ==> secretName !in configuration[i]
      ensures r.Some? <==> exists i :: IsWinningLayer(configuration, secretName, i)
      ensures forall i :: IsWinningLayer(configuration, secretName, i) ==> r == Some(configuration[i][secretName])
    {
      LookupIsHighestPriority(configuration, secretName);
      Lookup(configuration, secretName)
    }

    /** The secret when present; otherwise the missing-secret error naming it. */
    function GetRequiredSecret(secretName: string): (r: Result<string, SecretError>)
      ensures r.Ok? <==> GetSecret(secretName).Some?
      ensures r.Ok? ==> r.value == GetSecret(secretName).value
      ensures r.Err? ==> r.error == ArgumentNull(MissingSecretMessage(secretName))
    {
      match GetSecret(secretName)
      case Some(v) => Ok(v)
      case None => Err(ArgumentNull(MissingSecretMessage(secretName)))
    }
  }

  /** The missing-secret text starts with the fixed prefix and ends with the quoted name. */
  lemma MissingSecretMessageNamesSecret(secretName: string)
    ensures |MissingSecretMessage(secretName)| == |secretName| + 34
    ensures MissingSecretMessage(secretName)[33..33 + |secretName|] == secretName
    ensures MissingSecretMessage(secretName)[|secretName| + 33] == '\''
  {
  }

  /**
   * The parameterless manager answers from the default assembly's user secrets
   * unless the environment defines the key.
   */
  lemma DefaultSecretLookup(entry: Option<Assembly>, executing: Assembly, userSecrets: map<Assembly, Layer>, environment: Layer, key: string)
    ensures key in environment ==>
              Lookup(ConfigurationOf([SecretsManager.GetDefaultAssembly(entry, executing)], userSecrets, environment), key) == Some(environment[key])
    ensures key !in environment ==>
              Lookup(ConfigurationOf([SecretsManager.GetDefaultAssembly(entry, executing)], userSecrets, environment), key) ==
              (var source := UserSecretsSource(userSecrets, if entry.Some? then entry.value else executing);
               if key in source then Some(source[key]) else None)
  {
    var a := SecretsManager.GetDefaultAssembly(entry, executing);
    if key in environment {
      EnvironmentOverrides([a], userSecrets, environment, key);
    } else if key in UserSecretsSource(userSecrets, a) {
      LaterAssemblyOverrides([a], userSecrets, environment, key, 0);
    } else {
      AbsentEverywhere([a], userSecrets, environment, key);
    }
  }
}
