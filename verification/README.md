# Layered configuration loader — a Dafny model

This project models the core of `ConfigurationLoader`, a small Java configuration loader,
and of its value coercion helper `ReflectiveValueSetter`. The loader keeps one
`HashMap<String, String>`. Each of its steps is a loop of last-write-wins `put`s:

- `loadProperties(name)` puts every entry of `name.properties`.
- `loadYaml(name)` flattens the nested maps of `name.yml` into dot-joined keys (`flattenMap`).
- `loadEnvironmentVariables()` turns every `APP_…` variable into a lower-case, dotted key
  (`convertEnvToPropertyKey`).
- `loadConfiguration(name)` runs those three steps in that order.
- `getProperty` is an exact-key lookup.
- `injectConfig` strips `${`/`}` from each `@Value` annotation and writes the raw stored
  string into the annotated field.

`setFieldValue` turns a string into a `String`, `int`, `long`, `float`, `double` or
`boolean` field value, or throws.

The repository holds three revisions of the loader: `src/ConfigurationLoader.java`,
`src/main/java/ph/extremelogic/config/ConfigurationLoader.java` and
`src/main/java/ph/extremelogic/common/core/config/ConfigurationLoader.java`. They share one
model. Their load steps, flattening, key conversion and injection are the same code. The
`Revisions` module covers what differs (the earliest `main`) and the scenarios the earlier
revision's tests fix.

Modules (one file each):

| file | module | models |
|---|---|---|
| `wrappers.dfy` | `Wrappers` | `Option` (Java `null`) and `Result` (thrown exceptions) |
| `strings.dfy` | `Strings` | `startsWith`, ASCII `toLowerCase`, `equalsIgnoreCase`, `String.replace` |
| `store.dfy` | `ConfigStore` | the configuration map, `put`, and what a sequence of puts leaves behind |
| `yaml.dfy` | `YamlFlatten` | the parsed YAML tree and `flattenMap` |
| `env.dfy` | `EnvKeys` | `convertEnvToPropertyKey` and `loadEnvironmentVariables` |
| `loader.dfy` | `Loader` | `loadProperties`, `loadYaml`, `loadConfiguration`, `getProperty` |
| `coercion.dfy` | `Coercion` | `ReflectiveValueSetter.setFieldValue` and integer parsing |
| `binding.dfy` | `Binding` | key extraction from `@Value` and `injectConfig` |
| `revisions.dfy` | `Revisions` | the earliest revision's `main` and the earlier revision's test scenarios |

Notes on how the model reads the code:

- **Missing files.** A missing file aborts `loadConfiguration` in the current revision too,
  not only in the earlier one. Its `getInputStream` falls back to `new FileInputStream`,
  which throws `FileNotFoundException`, so the `input != null` test never fails. A step
  that throws keeps the puts made before it. `Loader.Outcome` therefore carries the store
  in both its `Completed` and its `Aborted` form.
- **YAML leaves.** A YAML leaf is the `toString()` of any value that is not a map,
  including a list printed as a whole. A `null` leaf makes `toString()` throw, which ends
  the walk. A document that is empty (`null`) or not a map throws before any put.
- **Environment order.** The environment is an explicit input: the entries of the map, in
  its iteration order. When two variable names convert to the same key, the one iterated
  last wins. `EnvKeys.OnlyVariableDecides` states the usual case, where one variable per
  key makes the order irrelevant.
- **Injection into other types.** `injectConfig` writes a raw `String` with `field.set`.
  A field whose type cannot hold a `String` makes that call throw
  `IllegalArgumentException` at the first such field, which ends injection. Fields
  written before that stay written; that field and the later ones keep their values.
- **What the loader does not do.** The loader does not normalize keys, substitute
  `${…}` inside values, apply `key:default` defaults, select profiles or decrypt
  `ENC(…)` values, so the model does none of these either.

## Model

| member | source | states |
|---|---|---|
| `ConfigStore.PutAll` | src/main/java/ph/extremelogic/common/core/config/ConfigurationLoader.java:101-106 | after a sequence of `put`s a key holds the value of its last write, and a key no write targets keeps its earlier value or stays absent |
| `ConfigStore.LastWriteIsLast` | src/main/java/ph/extremelogic/common/core/config/ConfigurationLoader.java:101-106 | the surviving value is that of a write to the key that no later write to the key follows; with no write to the key there is none |
| `ConfigStore.PutMap` | src/main/java/ph/extremelogic/common/core/config/ConfigurationLoader.java:47-49 | putting every property: property keys take the property values, every other key is unchanged |
| `ConfigStore.GetAfterPut` | src/main/java/ph/extremelogic/common/core/config/ConfigurationLoader.java:122-124 | a lookup right after a put sees the new value under that exact key and the old value under every other key |
| `YamlFlatten.Flatten` | src/main/java/ph/extremelogic/common/core/config/ConfigurationLoader.java:85-96 | the walk stops at a null leaf exactly when the tree has one; below a non-empty prefix every written key is the prefix followed by a dot |
| `YamlFlatten.FlattenWritesOnlyLeaves` | src/main/java/ph/extremelogic/common/core/config/ConfigurationLoader.java:88-94 | every write is a scalar leaf's text under that leaf's joined path; a nested map is never stored as a key |
| `YamlFlatten.FlattenWritesEveryLeaf` | src/main/java/ph/extremelogic/common/core/config/ConfigurationLoader.java:85-96 | in a tree without null leaves every scalar leaf at path k1…kn is written with its text under the joined path |
| `YamlFlatten.RootPathHasNoLeadingDot` | src/main/java/ph/extremelogic/common/core/config/ConfigurationLoader.java:87 | from the root, a path whose first key is not empty is stored as exactly `k1.k2.….kn`, with no leading dot |
| `YamlFlatten.JoinPathUnderPrefix` | src/main/java/ph/extremelogic/common/core/config/ConfigurationLoader.java:87 | below a non-empty prefix a path is stored as the prefix, a dot, and the dot-joined path |
| `EnvKeys.ConvertEnvKey` | src/main/java/ph/extremelogic/common/core/config/ConfigurationLoader.java:113-120 | no key unless the name starts with case-sensitive `APP_`; otherwise a key of the same length starting with `app.`, with no `_`, each character the lower-cased one of the name and each `_` a `.` |
| `EnvKeys.ConvertedKeyIs` | src/main/java/ph/extremelogic/common/core/config/ConfigurationLoader.java:113-120 | an `APP_` name converts to exactly the key of its length that lower-cases each character and spells each `_` as `.` |
| `EnvKeys.EnvNameRoundTrip` | src/main/java/ph/extremelogic/common/core/config/ConfigurationLoader.java:113-120 | an upper-snake `APP_` name converts to a lower-dot `app.` key whose environment spelling is the name again |
| `EnvKeys.PropertyKeyRoundTrip` | src/main/java/ph/extremelogic/common/core/config/ConfigurationLoader.java:113-120 | a lower-dot `app.` key, spelled as an environment name, converts back to itself |
| `EnvKeys.EnvValueComesFromVariable` | src/main/java/ph/extremelogic/common/core/config/ConfigurationLoader.java:100-107 | a key has an environment value exactly when some variable converts to it, and that value is such a variable's value |
| `EnvKeys.OnlyVariableDecides` | src/main/java/ph/extremelogic/common/core/config/ConfigurationLoader.java:100-107 | when exactly one variable converts to a key, the key's environment value is that variable's value |
| `EnvKeys.LoadEnv` | src/main/java/ph/extremelogic/common/core/config/ConfigurationLoader.java:100-107 | after loading the environment, a key holds the value of the last variable converting to it, or keeps its stored value when none does |
| `EnvKeys.LoadEnvWritesOnlyAppKeys` | src/main/java/ph/extremelogic/common/core/config/ConfigurationLoader.java:100-107 | only keys converted from `APP_` variables change, each to the value of a variable converting to it; all other entries are untouched |
| `Loader.LoadProperties` | src/main/java/ph/extremelogic/common/core/config/ConfigurationLoader.java:42-52 | a missing file throws with the store unchanged; otherwise every property overrides its key and nothing else changes |
| `Loader.LoadYaml` | src/main/java/ph/extremelogic/common/core/config/ConfigurationLoader.java:54-62 | completes exactly for a mapping document without null leaves; a missing file is `FileNotFoundException`, an empty document `EmptyDocument`, a non-map document `NotAMapping` (all with the store unchanged), a null leaf a `NullValue`; the store holds the flattened writes made before any exception over its earlier content |
| `Loader.YamlWritesExactlyLeafPaths` | src/main/java/ph/extremelogic/common/core/config/ConfigurationLoader.java:85-96 | after loading a YAML file a key's YAML value is a leaf at that exact path; a key that is no leaf's path keeps its value; every leaf's path is present |
| `Loader.LoadConfiguration` | src/main/java/ph/extremelogic/common/core/config/ConfigurationLoader.java:64-68 | a missing properties file aborts with the store untouched; after the properties, a missing, empty, non-map or null-leaf YAML file aborts with `FileNotFound(name.yml)`, `EmptyDocument`, `NotAMapping` or a `NullValue`; completes exactly when both files exist and the YAML is a null-free mapping; then environment beats YAML beats properties beats the earlier value; an aborted load never applies the environment |
| `Loader.LoadTwiceIsLoadOnce` | src/main/java/ph/extremelogic/common/core/config/ConfigurationLoader.java:42-68 | loading twice from the same files and environment gives the same outcome and store as loading once |
| `Loader.GetProperty` | src/main/java/ph/extremelogic/common/core/config/ConfigurationLoader.java:122-124 | present exactly when the key is stored, and then the stored value |
| `Loader.GetPropertyIsExact` | src/main/java/ph/extremelogic/common/core/config/ConfigurationLoader.java:122-124 | no normalization: `APP_NAME` and `app.Name` do not find a value stored under `app.name` |
| `Binding.ExtractKey` | src/main/java/ph/extremelogic/common/core/config/ConfigurationLoader.java:75 | the key extracted from an annotation never contains `}` |
| `Binding.ExtractKeyOfWrapped` | src/main/java/ph/extremelogic/common/core/config/ConfigurationLoader.java:75 | for a key containing neither `${` nor `}`, extracting from `${key}` gives the key back |
| `Binding.ExtractKeyOfBare` | src/main/java/ph/extremelogic/common/core/config/ConfigurationLoader.java:75 | an annotation written without the wrapper is used as the key unchanged |
| `Binding.ExtractKeyOfPlainKey` | src/main/java/ph/extremelogic/common/core/config/sample/AppConfig.java:28 | a key without `$`, `{` or `}` (like `app.name`) is recovered from both `${key}` and `key` |
| `Binding.SinglePassKeepsFormedOpener` | src/main/java/ph/extremelogic/common/core/config/ConfigurationLoader.java:75 | the removal is one pass: `$${{x}` yields `${x` for any `x` without `$` or `}`, keeping the `${` that removing the inner one forms |
| `Binding.InjectConfig` | src/main/java/ph/extremelogic/common/core/config/ConfigurationLoader.java:70-83 | an annotated field whose exact lookup succeeds gets the raw string; unannotated fields and misses keep their value; other names are never touched; completes exactly when every field that finds a value can hold a `String`, and then every field holds its injected value; otherwise it throws at the first such field, naming it, with every earlier field injected and that field and every later one as it was |
| `Coercion.ParseDecimal` | src/main/java/ph/extremelogic/common/core/config/util/ReflectiveValueSetter.java:62-65 | succeeds exactly on an optionally signed decimal literal whose value lies in the range, yields that value, and otherwise is a `NumberFormatException` for the input |
| `Coercion.DecimalRoundTrip` | src/main/java/ph/extremelogic/common/core/config/util/ReflectiveValueSetter.java:62-65 | parsing the decimal form of any in-range number gives the number back |
| `Coercion.Coerce` | src/main/java/ph/extremelogic/common/core/config/util/ReflectiveValueSetter.java:57-76 | `String` takes the text verbatim; `int`/`Integer` and `long`/`Long` succeed exactly on an in-range literal; `float`/`Float` and `double`/`Double` take exactly what the parser gives and fail exactly when it rejects the text; `boolean`/`Boolean` never fails and is true exactly for `true` in any case; other types are unsupported; a success fits the field type |
| `Coercion.PrimitiveAndBoxedAgree` | src/main/java/ph/extremelogic/common/core/config/util/ReflectiveValueSetter.java:62-71 | a primitive type and its box give the same result for every text |
| `Coercion.SetFieldValue` | src/main/java/ph/extremelogic/common/core/config/util/ReflectiveValueSetter.java:57-76 | the conversion runs first and its exception wins; then a field the caller may not write is `IllegalAccessException`, then a field the object lacks is `IllegalArgumentException`; each failure leaves every field as it was; otherwise exactly the one field is written, with the value the conversion produced |
| `Coercion.PrivateFieldIsNotWritten` | src/main/java/ph/extremelogic/common/core/config/util/ReflectiveValueSetter.java:57-61 | as written: a private `String` field the caller has not opened is not written, whatever the text, and `IllegalAccessException` is thrown |
| `Coercion.SetFieldValueOpened` | src/main/java/ph/extremelogic/common/core/config/util/ReflectiveValueSetter.java:46-48 | as documented, "even if the field is private": the field is written exactly when the conversion succeeds and the object has the field, with the converted value |
| `Revisions.EarliestMain` | src/ConfigurationLoader.java:95-105 | YAML then environment: a missing, empty, non-map or null-leaf document aborts with `FileNotFound(config.yml)`, `EmptyDocument`, `NotAMapping` or a `NullValue`; completes exactly for a null-free mapping document, and then the environment beats YAML beats the earlier value |
| `Revisions.AppNameConverts` | src/ConfigurationLoader.java:82-89 | `APP_NAME` converts to `app.name` |
| `Revisions.MissingPropertiesLeavesStore` | src/main/java/ph/extremelogic/config/ConfigurationLoader.java:28-52 | a missing properties file aborts `loadConfiguration` before YAML or the environment, with the store unchanged |
| `Revisions.YamlOverridesPropertiesScenario` | src/main/test/ph/extremelogic/config/ConfigurationLoaderTest.java:39-44 | `app.name=TestApp` in properties and `app: name: YamlApp` in YAML give `YamlApp` |
| `Revisions.EnvOverridesFilesScenario` | src/main/test/ph/extremelogic/config/ConfigurationLoaderTest.java:47-59 | with `APP_NAME=EnvApp` the full load gives `app.name = EnvApp` whatever the files and earlier loads hold |
| `Revisions.AppConfigScenario` | src/main/test/ph/extremelogic/config/ConfigurationLoaderTest.java:62-69 | a `String` field annotated `${key}` receives the stored value of the key verbatim |

## Findings

| source | as written | input that shows it | evidently intended | confidence | as-written member | corrected member |
|---|---|---|---|---|---|---|
| src/main/java/ph/extremelogic/common/core/config/util/ReflectiveValueSetter.java:46-61 | `setFieldValue` calls `field.set` without `setAccessible(true)` | a private `String` field such as `AppConfig.appName` that the caller has not opened, with any text: `IllegalAccessException`, nothing written | the documentation says the value is set "even if the field is private", so the field should be opened first, as `injectConfig` does before its own `field.set` | medium; not executed | `Coercion.PrivateFieldIsNotWritten` | `Coercion.SetFieldValueOpened` |

## Left out

- File location and opening (`getInputStream`, the class-path lookup, `FileUtil`): I/O. A
  source is either its parsed content or missing. Exceptions from closing a stream are not
  modelled.
- Properties and YAML parsing (`java.util.Properties`, SnakeYAML): foreign libraries. Their
  output is the input of the model: a flat map, and a tree whose leaves are already the
  values' `toString()` text. YAML keys are taken to be strings.
- `float`/`double` parsing (`Float.parseFloat`, `Double.parseDouble`): floating point. It is
  an opaque parser that the caller passes to `Coercion.Coerce`.
- EnvKeys.ConvertEnvKey: lower-cases ASCII letters only. Java's `toLowerCase` is
  locale-sensitive Unicode case mapping that can change the length of non-ASCII text.
- Coercion.ParseDecimal: accepts ASCII digits only. `Character.digit` also accepts other
  Unicode decimal digits.
- Coercion.Coerce: the boolean comparison folds ASCII case only. That is exact for `true`,
  up to Unicode characters that fold onto its letters.
- Coercion.SetFieldValue: takes from its caller whether access control lets the field be
  written (`accessible`) instead of deriving it from modifiers and the calling class.
  It checks access before the object's own fields, which is how `Field.set` orders
  its checks for an ordinary field.
- Binding.InjectConfig: takes the types a `String` can be assigned to as the fixed set
  `StringSupertypes`. It does not model `IllegalAccessException` from static final fields,
  or the reflection calls themselves (`getDeclaredFields`, `setAccessible`, annotation
  lookup). An object is its field declarations, in the order `getDeclaredFields` returns
  them (declaration order on HotSpot, not promised by its documentation), plus a map from
  field name to value.
- Reading the process environment (`System.getenv`) and the `mockEnvironmentVariables`
  setter: the environment is an explicit input, so setting it is the caller's choice.
- The earliest revision's `main` prints values and catches `IOException`: console output,
  not modelled.
- The AES encryptors (`DefaultPropertyEncryptor`, both `PropertyEncryptor` files): JCE
  cipher calls, not part of this model.
- `ConfigDemo`, `AppConfig` (beyond its one annotation) and `ConfigurationException`: demos
  and a plain exception class.
- Concurrency: the loader is single-threaded and the model is sequential.
