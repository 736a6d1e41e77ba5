/** Environment variables as configuration: `convertEnvToPropertyKey` and
    `loadEnvironmentVariables`. The process environment is an explicit input (the
    `mockEnvironmentVariables` seam), given as its entries in iteration order. */
module EnvKeys {
  import opened Wrappers
  import opened Strings
  import opened ConfigStore

  /** The case-sensitive prefix a variable needs to become a configuration key. */
  const AppPrefix: string := "APP_"

  /** `convertEnvToPropertyKey`: a name that starts with `APP_` is lower-cased and
      every `_` becomes `.` (so the prefix itself becomes `app.`); any other name has
      no key (`null`). Each character of the result is the converted character of the
      name at the same position. */
  function ConvertEnvKey(name: string): (r: Option<string>)
    ensures r.None? <==> !StartsWith(name, AppPrefix)
    ensures r.Some? ==> |r.value| == |name| && StartsWith(r.value, "app.") && '_' !in r.value
    ensures r.Some? ==> forall i :: 0 <= i < |name| ==>
              r.value[i] == (if name[i] == '_' then '.' else LowerChar(name[i]))
  {
    if StartsWith(name, AppPrefix) then
      var lower := ToLower(name);
      ReplaceCharByChar(lower, '_', '.');
      assert "_" == ['_'] && "." == ['.'];
      Some(Replace(lower, "_", "."))
    else
      None
  }

  /** An upper-snake-case `APP_` name: capitals, digits and underscores. */
  predicate IsEnvStyleName(name: string)
  {
    StartsWith(name, AppPrefix) &&
    forall i :: 0 <= i < |name| ==> 'A' <= name[i] <= 'Z' || '0' <= name[i] <= '9' || name[i] == '_'
  }

  /** A lower-case dotted `app.` key: small letters, digits and dots. */
  predicate IsPropertyStyleKey(key: string)
  {
    StartsWith(key, "app.") &&
    forall i :: 0 <= i < |key| ==> 'a' <= key[i] <= 'z' || '0' <= key[i] <= '9' || key[i] == '.'
  }

  /** The environment name that spells a property key: upper case, `.` as `_`. */
  function EnvNameFor(key: string): (name: string)
    ensures |name| == |key|
  {
    seq(|key|, i requires 0 <= i < |key| => if key[i] == '.' then '_' else UpperChar(key[i]))
  }

  /** The character-by-character description determines the converted key: an
      `APP_` name converts to exactly the key that lower-cases each character and
      turns each `_` into `.`. */
  lemma ConvertedKeyIs(name: string, key: string)
    requires StartsWith(name, AppPrefix) && |key| == |name|
    requires forall i :: 0 <= i < |name| ==> key[i] == (if name[i] == '_' then '.' else LowerChar(name[i]))
    ensures ConvertEnvKey(name) == Some(key)
  {
    var r := ConvertEnvKey(name).value;
    assert |r| == |key|;
    assert forall i :: 0 <= i < |key| ==> r[i] == key[i];
    assert r == key;
  }

  /** Conversion is a bijection between upper-snake `APP_` names and lower-dot `app.`
      keys: converting a name and spelling the key back gives the name. */
  lemma EnvNameRoundTrip(name: string)
    requires IsEnvStyleName(name)
    ensures ConvertEnvKey(name).Some?
    ensures IsPropertyStyleKey(ConvertEnvKey(name).value)
    ensures EnvNameFor(ConvertEnvKey(name).value) == name
  {
    var key := ConvertEnvKey(name).value;
    forall i | 0 <= i < |key|
      ensures 'a' <= key[i] <= 'z' || '0' <= key[i] <= '9' || key[i] == '.'
    {
    }
  }

  /** ...and spelling a key as a name and converting it gives the key back. */
  lemma PropertyKeyRoundTrip(key: string)
    requires IsPropertyStyleKey(key)
    ensures ConvertEnvKey(EnvNameFor(key)) == Some(key)
  {
    var name := EnvNameFor(key);
    assert key[0] == 'a' && key[1] == 'p' && key[2] == 'p' && key[3] == '.' by {
      assert key[..4] == "app.";
    }
    assert name[..4] == AppPrefix;
    var r := ConvertEnvKey(name).value;
    forall i | 0 <= i < |key| ensures r[i] == key[i] {
      if key[i] != '.' {
        assert LowerChar(UpperChar(key[i])) == key[i];
      }
    }
    assert r == key;
  }

  /** One environment entry, `Map.Entry<String, String>`. */
  datatype EnvVar = EnvVar(name: string, value: string)

  /** The environment's entries in iteration order. */
  type Env = seq<EnvVar>

  /** The value of the last variable (in iteration order) whose name converts to
      `key`; none when no variable does. */
  function EnvValue(env: Env, key: string): Option<string>
  {
    if env == [] then None
    else EnvValue(env[1..], key).Or(if ConvertEnvKey(env[0].name) == Some(key) then Some(env[0].value) else None)
  }

  /** `EnvValue` is absent exactly when no variable converts to the key, and
      otherwise is the value of some variable that does. */
  lemma {:induction false} EnvValueComesFromVariable(env: Env, key: string)
    ensures EnvValue(env, key).None? <==> forall i :: 0 <= i < |env| ==> ConvertEnvKey(env[i].name) != Some(key)
    ensures EnvValue(env, key).Some? ==>
              exists i :: 0 <= i < |env| && ConvertEnvKey(env[i].name) == Some(key)
                && env[i].value == EnvValue(env, key).value
  {
    if env != [] {
      EnvValueComesFromVariable(env[1..], key);
      if EnvValue(env[1..], key).Some? {
        var i :| 0 <= i < |env[1..]| && ConvertEnvKey(env[1..][i].name) == Some(key)
                 && env[1..][i].value == EnvValue(env[1..], key).value;
        assert env[i + 1] == env[1..][i];
      }
      if EnvValue(env[1..], key).None? && ConvertEnvKey(env[0].name) != Some(key) {
        forall i | 0 <= i < |env| ensures ConvertEnvKey(env[i].name) != Some(key) {
          if i > 0 { assert env[i] == env[1..][i - 1]; }
        }
      }
    }
  }

  /** With the environment as a map (each converted key from one variable only), a
      key's environment value is that variable's value. */
  lemma OnlyVariableDecides(env: Env, key: string, i: int)
    requires 0 <= i < |env| && ConvertEnvKey(env[i].name) == Some(key)
    requires forall j :: 0 <= j < |env| && ConvertEnvKey(env[j].name) == Some(key) ==> j == i
    ensures EnvValue(env, key) == Some(env[i].value)
  {
    EnvValueComesFromVariable(env, key);
  }

  /** The puts `loadEnvironmentVariables` performs, in iteration order. */
  function EnvWrites(env: Env): seq<Write>
  {
    if env == [] then []
    else
      (match ConvertEnvKey(env[0].name)
       case Some(key) => [Write(key, env[0].value)]
       case None => []) + EnvWrites(env[1..])
  }

  lemma {:induction false} EnvWritesLastWrite(env: Env, key: string)
    ensures LastWrite(EnvWrites(env), key) == EnvValue(env, key)
  {
    if env != [] {
      var head := match ConvertEnvKey(env[0].name)
        case Some(k) => [Write(k, env[0].value)]
        case None => [];
      LastWriteConcat(head, EnvWrites(env[1..]), key);
      EnvWritesLastWrite(env[1..], key);
      if head != [] {
        assert head[1..] == [];
      }
    }
  }

  /** `loadEnvironmentVariables`: a key holds the value of the last variable that
      converts to it, and keeps its stored value when no variable does. */
  function LoadEnv(s: Store, env: Env): (r: Store)
    ensures forall k :: Get(r, k) == EnvValue(env, k).Or(Get(s, k))
  {
    var r := PutAll(s, EnvWrites(env));
    assert forall k :: Get(r, k) == EnvValue(env, k).Or(Get(s, k)) by {
      forall k ensures Get(r, k) == EnvValue(env, k).Or(Get(s, k)) {
        EnvWritesLastWrite(env, k);
      }
    }
    r
  }

  /** Loading the environment writes only keys converted from `APP_` variables, each
      with the value of a variable converting to it; every other entry is untouched. */
  lemma LoadEnvWritesOnlyAppKeys(s: Store, env: Env, key: string)
    ensures (forall i :: 0 <= i < |env| ==> ConvertEnvKey(env[i].name) != Some(key)) ==>
              Get(LoadEnv(s, env), key) == Get(s, key)
    ensures (exists i :: 0 <= i < |env| && ConvertEnvKey(env[i].name) == Some(key)) ==>
              (exists j :: 0 <= j < |env| && ConvertEnvKey(env[j].name) == Some(key)
                 && Get(LoadEnv(s, env), key) == Some(env[j].value))
  {
    EnvValueComesFromVariable(env, key);
  }
}
