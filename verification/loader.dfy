/** `ConfigurationLoader`'s load sequence: properties file, then YAML file, then the
    environment, each a series of last-write-wins puts into one store. Opening and
    parsing a file are not modelled: a source is either its parsed content or
    missing, and a missing file makes `new FileInputStream` throw. */
module Loader {
  import opened Wrappers
  import opened ConfigStore
  import opened YamlFlatten
  import opened EnvKeys

  /** A configuration file as the loader sees it: parsed content, or no such file. */
  datatype Source<T> = Missing | Present(content: T)

  /** What `java.util.Properties` parsed from a `.properties` file. */
  type Properties = map<string, string>

  /** The exceptions that end a load. Only `FileNotFound` is an `IOException`, the
      checked exception the callers catch; the other three are unchecked. */
  datatype LoadError =
    | FileNotFound(fileName: string)  // `new FileInputStream` on a missing file
    | EmptyDocument                   // `yaml.load` gave null: `map.entrySet()` throws
    | NotAMapping                     // the document is not a map: the cast throws
    | NullValue(key: string)          // a null leaf: `toString()` throws

  /** The store after a load step, and the exception that stopped it, if any. A
      thrown exception leaves the puts made before it in place. */
  datatype Outcome = Completed(store: Store) | Aborted(store: Store, error: LoadError)

  /** `loadProperties(fileName)`: a missing file throws before any put; otherwise
      every property is put. */
  function LoadProperties(s: Store, fileName: string, src: Source<Properties>): (r: Outcome)
    ensures src.Missing? ==> r == Aborted(s, FileNotFound(fileName))
    ensures src.Present? ==> r.Completed? && forall k :: Get(r.store, k) == Get(src.content, k).Or(Get(s, k))
  {
    match src
    case Missing => Aborted(s, FileNotFound(fileName))
    case Present(properties) => Completed(PutMap(s, properties))
  }

  /** The value a YAML document's walk last writes under `key` (none for a
      document that is not a mapping, since nothing is written then). */
  function YamlValue(doc: Yaml, key: string): Option<string>
  {
    match doc
    case Mapping(entries) => LastWrite(Flatten("", entries).writes, key)
    case _ => None
  }

  /** The YAML layer of a source: nothing when the file is missing. */
  function YamlLayer(src: Source<Yaml>, key: string): Option<string>
  {
    if src.Present? then YamlValue(src.content, key) else None
  }

  /** `loadYaml(fileName)`: `flattenMap("", document)`. It completes exactly for a
      mapping document without null leaves; in every case the store holds the
      flattened writes made before any exception over its earlier content. */
  function LoadYaml(s: Store, fileName: string, src: Source<Yaml>): (r: Outcome)
    ensures src.Missing? ==> r == Aborted(s, FileNotFound(fileName))
    ensures src.Present? && src.content.Null? ==> r == Aborted(s, EmptyDocument)
    ensures src.Present? && src.content.Leaf? ==> r == Aborted(s, NotAMapping)
    ensures src.Present? && src.content.Mapping? && !NullFree(src.content.entries) ==>
              r.Aborted? && r.error.NullValue?
    ensures r.Completed? <==> src.Present? && src.content.Mapping? && NullFree(src.content.entries)
    ensures forall k :: Get(r.store, k) == YamlLayer(src, k).Or(Get(s, k))
  {
    match src
    case Missing => Aborted(s, FileNotFound(fileName))
    case Present(Null) => Aborted(s, EmptyDocument)
    case Present(Leaf(_)) => Aborted(s, NotAMapping)
    case Present(Mapping(entries)) =>
      var walk := Flatten("", entries);
      var written := PutAll(s, walk.writes);
      if walk.stoppedAt.Some? then Aborted(written, NullValue(walk.stoppedAt.value))
      else Completed(written)
  }

  /** For a YAML document without null leaves, the YAML value of a key comes from a
      leaf stored under exactly that path, and a key is written exactly when some
      leaf's joined path is that key: any other entry keeps its value. */
  lemma YamlWritesExactlyLeafPaths(s: Store, fileName: string, doc: Yaml, k: string)
    requires doc.Mapping? && NullFree(doc.entries)
    ensures YamlValue(doc, k).Some? ==>
              exists path :: LeafAt(doc.entries, path, YamlValue(doc, k).value) && JoinPath("", path) == k
    ensures (exists path, text :: LeafAt(doc.entries, path, text) && JoinPath("", path) == k) ==>
              k in LoadYaml(s, fileName, Present(doc)).store
    ensures (forall path, text :: !(LeafAt(doc.entries, path, text) && JoinPath("", path) == k)) ==>
              Get(LoadYaml(s, fileName, Present(doc)).store, k) == Get(s, k)
  {
    var writes := Flatten("", doc.entries).writes;
    LastWriteIsLast(writes, k);
    if YamlValue(doc, k).Some? {
      var i :| 0 <= i < |writes| && writes[i] == Write(k, YamlValue(doc, k).value)
               && forall j :: i < j < |writes| ==> writes[j].key != k;
      FlattenWritesOnlyLeaves("", doc.entries, writes[i]);
    }
    if exists path, text :: LeafAt(doc.entries, path, text) && JoinPath("", path) == k {
      var path, text :| LeafAt(doc.entries, path, text) && JoinPath("", path) == k;
      FlattenWritesEveryLeaf("", doc.entries, path, text);
      var i :| 0 <= i < |writes| && writes[i] == Write(k, text);
      assert writes[i].key == k;
    }
  }

  /** `loadConfiguration(name)`: `name.properties`, then `name.yml`, then the
      environment. A missing properties file aborts with the store untouched. The
      load completes exactly when both files exist and the YAML document is a
      mapping without null leaves, and then a key holds the environment's value if
      an `APP_` variable converts to it, else the YAML leaf's, else the property's,
      else its earlier value. An aborted load never applies the environment. */
  function LoadConfiguration(s: Store, name: string, properties: Source<Properties>,
                             yaml: Source<Yaml>, env: Env): (r: Outcome)
    ensures properties.Missing? ==> r == Aborted(s, FileNotFound(name + ".properties"))
    ensures properties.Present? && yaml.Missing? ==> r.Aborted? && r.error == FileNotFound(name + ".yml")
    ensures properties.Present? && yaml.Present? && yaml.content.Null? ==> r.Aborted? && r.error == EmptyDocument
    ensures properties.Present? && yaml.Present? && yaml.content.Leaf? ==> r.Aborted? && r.error == NotAMapping
    ensures properties.Present? && yaml.Present? && yaml.content.Mapping? && !NullFree(yaml.content.entries) ==>
              r.Aborted? && r.error.NullValue?
    ensures r.Completed? <==>
              properties.Present? && yaml.Present? && yaml.content.Mapping? && NullFree(yaml.content.entries)
    ensures r.Completed? ==> forall k ::
              Get(r.store, k) == EnvValue(env, k).Or(YamlLayer(yaml, k)).Or(Get(properties.content, k)).Or(Get(s, k))
    ensures r.Aborted? && properties.Present? ==> forall k ::
              Get(r.store, k) == YamlLayer(yaml, k).Or(Get(properties.content, k)).Or(Get(s, k))
  {
    match LoadProperties(s, name + ".properties", properties)
    case Aborted(s1, e) => Aborted(s1, e)
    case Completed(s1) =>
      match LoadYaml(s1, name + ".yml", yaml)
      case Aborted(s2, e) => Aborted(s2, e)
      case Completed(s2) => Completed(LoadEnv(s2, env))
  }

  /** Loading twice from the same files and environment leaves the same store (and
      the same outcome) as loading once: every step is an overwrite whose values
      do not depend on what the store held. */
  lemma LoadTwiceIsLoadOnce(s: Store, name: string, properties: Source<Properties>,
                            yaml: Source<Yaml>, env: Env)
    ensures var once := LoadConfiguration(s, name, properties, yaml, env);
            LoadConfiguration(once.store, name, properties, yaml, env) == once
  {
    var once := LoadConfiguration(s, name, properties, yaml, env);
    var twice := LoadConfiguration(once.store, name, properties, yaml, env);
    if properties.Present? {
      forall k ensures Get(twice.store, k) == Get(once.store, k) {
      }
      SameLookupsSameStore(twice.store, once.store);
    }
  }

  /** `getProperty(key)`: an exact-key lookup; no normalization, so a key spelled
      differently in case or punctuation is a different key. */
  function GetProperty(s: Store, key: string): (r: Option<string>)
    ensures r.Some? <==> key in s
    ensures r.Some? ==> r.value == s[key]
  {
    Get(s, key)
  }

  /** Lookups are not normalized: the environment spelling or a different letter
      case of a stored key finds nothing. */
  lemma GetPropertyIsExact(value: string)
    ensures GetProperty(map["app.name" := value], "app.name") == Some(value)
    ensures GetProperty(map["app.name" := value], "APP_NAME") == None
    ensures GetProperty(map["app.name" := value], "app.Name") == None
  {
    assert "APP_NAME" != "app.name" && "app.Name" != "app.name" by {
      assert "APP_NAME"[0] != "app.name"[0];
      assert "app.Name"[4] != "app.name"[4];
    }
  }
}
