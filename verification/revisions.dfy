/** The two earlier revisions of the loader share the model of the current one
    (their load steps, flattening, conversion and injection are the same code);
    this module holds what only they do and the scenarios their tests pin down. */
module Revisions {
  import opened Wrappers
  import opened Strings
  import opened ConfigStore
  import opened YamlFlatten
  import opened EnvKeys
  import opened Loader
  import opened Coercion
  import opened Binding

  /** The earliest revision's `main`: `loadYaml("config.yml")` (file names are taken
      whole there), then the environment; no properties file. When it completes, the
      environment wins over the YAML file, which wins over what was stored. */
  function EarliestMain(s: Store, yaml: Source<Yaml>, env: Env): (r: Outcome)
    ensures yaml.Missing? ==> r == Aborted(s, FileNotFound("config.yml"))
    ensures yaml.Present? && yaml.content.Null? ==> r == Aborted(s, EmptyDocument)
    ensures yaml.Present? && yaml.content.Leaf? ==> r == Aborted(s, NotAMapping)
    ensures yaml.Present? && yaml.content.Mapping? && !NullFree(yaml.content.entries) ==>
              r.Aborted? && r.error.NullValue?
    ensures r.Completed? <==> yaml.Present? && yaml.content.Mapping? && NullFree(yaml.content.entries)
    ensures r.Completed? ==> forall k :: Get(r.store, k) == EnvValue(env, k).Or(YamlLayer(yaml, k)).Or(Get(s, k))
  {
    match LoadYaml(s, "config.yml", yaml)
    case Aborted(s1, e) => Aborted(s1, e)
    case Completed(s1) => Completed(LoadEnv(s1, env))
  }

  /** `APP_NAME` is the environment spelling of `app.name`. */
  lemma AppNameConverts()
    ensures ConvertEnvKey("APP_NAME") == Some("app.name")
  {
    var name := "APP_NAME";
    var key := "app.name";
    assert StartsWith(name, AppPrefix) by {
      assert |AppPrefix| == 4 <= |name|;
      forall i | 0 <= i < 4 ensures name[..4][i] == AppPrefix[i] {
        assert name[..4][i] == name[i];
      }
    }
    assert forall i :: 0 <= i < |name| ==> key[i] == (if name[i] == '_' then '.' else LowerChar(name[i]));
    ConvertedKeyIs(name, key);
  }

  /** The earlier revision opens `name.properties` with no fallback: when it is
      missing, `loadConfiguration` throws before YAML or the environment is
      applied, leaving the store as it was. */
  lemma MissingPropertiesLeavesStore(s: Store, name: string, yaml: Source<Yaml>, env: Env)
    ensures LoadConfiguration(s, name, Missing, yaml, env) == Aborted(s, FileNotFound(name + ".properties"))
  {
  }

  /** With `app.name=TestApp` in the properties file and `app: name: YamlApp` in the
      YAML file, and no variable spelling `app.name`, the YAML value wins. */
  lemma YamlOverridesPropertiesScenario(s: Store, env: Env)
    requires forall i :: 0 <= i < |env| ==> ConvertEnvKey(env[i].name) != Some("app.name")
    ensures var r := LoadConfiguration(s, "config", Present(map["app.name" := "TestApp"]),
                                       Present(Mapping([Entry("app", Mapping([Entry("name", Leaf("YamlApp"))]))])), env);
            r.Completed? && GetProperty(r.store, "app.name") == Some("YamlApp")
  {
    var doc := Mapping([Entry("app", Mapping([Entry("name", Leaf("YamlApp"))]))]);
    var nested := [Entry("name", Leaf("YamlApp"))];
    assert NullFree(nested);
    assert NullFree(doc.entries);
    assert Join("app", "name") == "app.name";
    assert Flatten("app", nested).writes == [Write("app.name", "YamlApp")];
    assert Flatten("", doc.entries).writes == [Write("app.name", "YamlApp")];
    assert YamlValue(doc, "app.name") == Some("YamlApp");
    EnvValueComesFromVariable(env, "app.name");
  }

  /** With `APP_NAME=EnvApp` as the environment, `app.name` is `EnvApp` after the
      full load, whatever the two files say and whatever was loaded before. */
  lemma EnvOverridesFilesScenario(s: Store, properties: Properties, doc: Yaml)
    requires doc.Mapping? && NullFree(doc.entries)
    ensures var r := LoadConfiguration(s, "config", Present(properties), Present(doc), [EnvVar("APP_NAME", "EnvApp")]);
            r.Completed? && GetProperty(r.store, "app.name") == Some("EnvApp")
  {
    AppNameConverts();
    var env := [EnvVar("APP_NAME", "EnvApp")];
    assert EnvValue(env, "app.name") == Some("EnvApp") by {
      assert env[1..] == [];
    }
  }

  /** The sample `AppConfig`: a `String` field `appName` annotated `${app.name}` gets
      the stored value as it is; shown for any key without `$`, `{` or `}`, such as
      `app.name`. */
  lemma AppConfigScenario(store: Store, key: string)
    requires '$' !in key && '{' !in key && '}' !in key
    requires key in store
    ensures InjectConfig(store, [FieldDecl(Field("appName", StringType), Some("${" + key + "}"))], map["appName" := NullRef])
            == Injected(map["appName" := Str(store[key])])
  {
    var decl := FieldDecl(Field("appName", StringType), Some("${" + key + "}"));
    ExtractKeyOfPlainKey(key);
    assert Bound(store, decl) == Some(store[key]);
    var r := InjectConfig(store, [decl], map["appName" := NullRef]);
    assert [decl][0] == decl;
    assert r.values == map["appName" := Str(store[key])];
  }
}
