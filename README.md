# Data source registry of the Spring Boot sharding starter

This project models the core of `SpringBootConfiguration`, the Spring Boot
configuration class of the sharding-jdbc starter, and proves properties of the
model. The class does three things:

1. **Name-list resolution** (`getDataSourceNames`). It reads the
   `sharding.jdbc.datasource.names` property and splits it with Java's
   `String.split(",")`. Each raw, untrimmed token goes to the inline-expression
   expander. The expansions are concatenated in token order.
2. **Registry build** (`setEnvironment` / `setDataSourceMap`). It walks the
   resolved names in order. For each name it reads the property sub-map under
   `sharding.jdbc.datasource.` plus the *trimmed* name. It rejects an empty
   sub-map ("Wrong datasource properties!"). It builds a connection pool from the
   `type` entry. It `put`s the pool into a `LinkedHashMap` field under the
   *untrimmed* name. The first exception ends the walk and leaves the entries
   put so far in the map.
3. **Routing dispatch** (`dataSource`). A null master-slave master name
   selects the sharding factory. Any other value selects the master-slave
   factory. Both get the same map, config map and properties.

Modules, one per concern:

- `Wrappers` (wrappers.dfy): `Option` (a Java null) and `Result` (a Java exception).
- `JavaStrings` (java_strings.dfy): `String.split(",")` and `String.trim()` as
  pure functions. With no comma, split returns the input itself, so `""` gives
  `[""]`. Otherwise it returns every piece between commas, minus the trailing
  empty pieces. Trim strips characters up to U+0020 at both ends.
- `LinkedMaps` (linked_maps.dfy): the insertion-ordered map. It is a class
  `LinkedHashMap` whose state is a `seq<(string, V)>` with distinct keys. `put`
  overwrites an existing key in place and appends a new key at the end.
  `PutEntry`, `Lookup` and `Keys` state `put`, `get` and the key order as
  functions.
- `NameList` (name_list.dfy): `getDataSourceNames` as a method with its loop,
  proved against `ResolvedNames`, the in-order concatenation of the expansions.
- `Registry` (registry.dfy): one loop iteration (`BindPool`), the whole loop
  (`BuildFrom`), all of `setDataSourceMap` (`Configure`), and lemmas about them.
- `SpringBoot` (spring_boot.dfy): the class `SpringBootConfiguration`. Its
  fields are the values the property objects' getters return (the sharding rule
  configuration, the master-slave properties, the config map and the props) and
  the map. Its members are
  `DataSource`, `SetEnvironment` and `SetDataSourceMap`, whose loop is proved
  against `Configure`.

Collaborators the class calls but does not define are parameters:

- `expand: string -> seq<string>` is `InlineExpressionParser(token).splitAndEvaluate()`.
- `Environment` holds `getProperty` (None where Java returns null) and
  `handle`, the sub-map binding of `PropertyUtil.handle`.
- `create: (string, Props) -> Option<P>` is `DataSourceUtil.getDataSource`.
  None means it threw a `ReflectiveOperationException`.
- The two factories are `AggregateDataSource` values. Each is tagged with its
  factory and records the arguments it received.

The exception that escapes `setEnvironment` is the method's returned
`Option<BuildError>`:

- `NullPointerException` when the names property is null (thrown at the split)
  or when the sub-map has no `type` entry (thrown at `get("type").toString()`);
- `IllegalStateException("Wrong datasource properties!")` for an empty sub-map;
- `ShardingException("Can't find datasource type!")` when the pool type cannot
  be loaded.

Facts about the code that the model keeps:

- Tokens are not trimmed before expansion; only the property lookup key is
  trimmed (line 94). So a resolved name `" ds0 "` is stored under `" ds0 "`
  (`Registry.UntrimmedKeyExample`).
- The model's build errors are these three: `NullPointerException`,
  `IllegalStateException` and `ShardingException`. The only catch in the code is
  for `ReflectiveOperationException` (line 99), so any other exception thrown by
  the collaborators (the expander, `PropertyUtil.handle`,
  `DataSourceUtil.getDataSource`) propagates unchanged in Java; those are left
  out (see "## Left out").
- `split(",")` cuts at every comma, so a `${a,b}` alternation in the names
  value is cut apart: no token that reaches the expander holds a comma (the
  first ensures of `JavaStrings.Split`).
- Whitespace-only tokens are not dropped, and pools are not released on
  failure.

## Model

| member | source | states |
|---|---|---|
| `JavaStrings.SplitAll` | sharding-jdbc-spring/sharding-jdbc-spring-boot-starter/src/main/java/io/shardingsphere/shardingjdbc/spring/boot/SpringBootConfiguration.java:107 | splitting at every comma always yields at least one piece |
| `JavaStrings.DropTrailingEmpty` | sharding-jdbc-spring/sharding-jdbc-spring-boot-starter/src/main/java/io/shardingsphere/shardingjdbc/spring/boot/SpringBootConfiguration.java:107 | the limit-0 rule: the kept tokens are a prefix of the pieces, the last kept one is non-empty, and every dropped one is empty |
| `JavaStrings.Split` | sharding-jdbc-spring/sharding-jdbc-spring-boot-starter/src/main/java/io/shardingsphere/shardingjdbc/spring/boot/SpringBootConfiguration.java:107 | `split(",")`: no token holds a comma; a comma-free input is its own single token; otherwise the tokens are the pieces between commas with only trailing empty ones dropped |
| `JavaStrings.SplitAllJoin` | sharding-jdbc-spring/sharding-jdbc-spring-boot-starter/src/main/java/io/shardingsphere/shardingjdbc/spring/boot/SpringBootConfiguration.java:107 | round trip: the pieces joined with commas give back the names value |
| `JavaStrings.SplitAllNoComma` | sharding-jdbc-spring/sharding-jdbc-spring-boot-starter/src/main/java/io/shardingsphere/shardingjdbc/spring/boot/SpringBootConfiguration.java:107 | no piece holds a comma |
| `JavaStrings.SplitAllWithoutComma` | sharding-jdbc-spring/sharding-jdbc-spring-boot-starter/src/main/java/io/shardingsphere/shardingjdbc/spring/boot/SpringBootConfiguration.java:107 | a value without commas is a single piece |
| `JavaStrings.SplitEdgeCases` | sharding-jdbc-spring/sharding-jdbc-spring-boot-starter/src/main/java/io/shardingsphere/shardingjdbc/spring/boot/SpringBootConfiguration.java:107 | `""` gives one empty token, `","` none, `"a,,"` gives `["a"]`, a leading empty token is kept |
| `JavaStrings.Trim` | sharding-jdbc-spring/sharding-jdbc-spring-boot-starter/src/main/java/io/shardingsphere/shardingjdbc/spring/boot/SpringBootConfiguration.java:94 | definition of `trim()`; characterized by `TrimSpec` (a slice with only trimmable characters around it, neither starting nor ending with one) and `TrimUnique` (that description determines it) |
| `JavaStrings.TrimStartSpec` | sharding-jdbc-spring/sharding-jdbc-spring-boot-starter/src/main/java/io/shardingsphere/shardingjdbc/spring/boot/SpringBootConfiguration.java:94 | stripping the front removes only characters up to U+0020 and stops at the first other one |
| `JavaStrings.TrimEndSpec` | sharding-jdbc-spring/sharding-jdbc-spring-boot-starter/src/main/java/io/shardingsphere/shardingjdbc/spring/boot/SpringBootConfiguration.java:94 | stripping the back removes only characters up to U+0020 and stops at the last other one |
| `JavaStrings.TrimSpec` | sharding-jdbc-spring/sharding-jdbc-spring-boot-starter/src/main/java/io/shardingsphere/shardingjdbc/spring/boot/SpringBootConfiguration.java:94 | `trim()` is a slice of the name with only trimmable characters around it, and it neither starts nor ends with one |
| `JavaStrings.TrimUnique` | sharding-jdbc-spring/sharding-jdbc-spring-boot-starter/src/main/java/io/shardingsphere/shardingjdbc/spring/boot/SpringBootConfiguration.java:94 | the description in TrimSpec determines `trim()` uniquely |
| `JavaStrings.TrimIdempotent` | sharding-jdbc-spring/sharding-jdbc-spring-boot-starter/src/main/java/io/shardingsphere/shardingjdbc/spring/boot/SpringBootConfiguration.java:94 | trimming twice is trimming once |
| `JavaStrings.TrimExample` | sharding-jdbc-spring/sharding-jdbc-spring-boot-starter/src/main/java/io/shardingsphere/shardingjdbc/spring/boot/SpringBootConfiguration.java:94 | `" ds0 ".trim()` is `"ds0"` |
| `LinkedMaps.IndexOf` | sharding-jdbc-spring/sharding-jdbc-spring-boot-starter/src/main/java/io/shardingsphere/shardingjdbc/spring/boot/SpringBootConfiguration.java:98 | the map finds a key at its first position, or reports that it is absent |
| `LinkedMaps.Lookup` | sharding-jdbc-spring/sharding-jdbc-spring-boot-starter/src/main/java/io/shardingsphere/shardingjdbc/spring/boot/SpringBootConfiguration.java:98 | `get(key)` finds a value if and only if the key is in the map; characterized further by `PutEntryLookupSame` and `PutEntryLookupOther` |
| `LinkedMaps.PutEntry` | sharding-jdbc-spring/sharding-jdbc-spring-boot-starter/src/main/java/io/shardingsphere/shardingjdbc/spring/boot/SpringBootConfiguration.java:98 | `put(key, value)` grows the map by one entry exactly when the key is new; characterized by `PutEntryDistinct`, `PutEntryLookupSame`, `PutEntryLookupOther`, `PutEntryKeys` and `PutEntrySame` |
| `LinkedMaps.PutEntryDistinct` | sharding-jdbc-spring/sharding-jdbc-spring-boot-starter/src/main/java/io/shardingsphere/shardingjdbc/spring/boot/SpringBootConfiguration.java:98 | `put` keeps the keys unique |
| `LinkedMaps.PutEntryLookupSame` | sharding-jdbc-spring/sharding-jdbc-spring-boot-starter/src/main/java/io/shardingsphere/shardingjdbc/spring/boot/SpringBootConfiguration.java:98 | after `put(k, v)`, `get(k)` is v |
| `LinkedMaps.PutEntryLookupOther` | sharding-jdbc-spring/sharding-jdbc-spring-boot-starter/src/main/java/io/shardingsphere/shardingjdbc/spring/boot/SpringBootConfiguration.java:98 | `put(k, v)` leaves the value of every other key unchanged |
| `LinkedMaps.PutEntryKeys` | sharding-jdbc-spring/sharding-jdbc-spring-boot-starter/src/main/java/io/shardingsphere/shardingjdbc/spring/boot/SpringBootConfiguration.java:98 | `put` of an existing key keeps the key order (overwrite in place); a new key is appended at the end |
| `LinkedMaps.PutEntrySame` | sharding-jdbc-spring/sharding-jdbc-spring-boot-starter/src/main/java/io/shardingsphere/shardingjdbc/spring/boot/SpringBootConfiguration.java:98 | putting the value a key already holds leaves the map unchanged |
| `LinkedMaps.AppendNewPrefix` | sharding-jdbc-spring/sharding-jdbc-spring-boot-starter/src/main/java/io/shardingsphere/shardingjdbc/spring/boot/SpringBootConfiguration.java:92-98 | a series of puts keeps the earlier keys, in order, at the front |
| `LinkedMaps.AppendNewElements` | sharding-jdbc-spring/sharding-jdbc-spring-boot-starter/src/main/java/io/shardingsphere/shardingjdbc/spring/boot/SpringBootConfiguration.java:92-98 | after a series of puts the keys are exactly the old keys plus the names put |
| `LinkedMaps.AppendNewDistinct` | sharding-jdbc-spring/sharding-jdbc-spring-boot-starter/src/main/java/io/shardingsphere/shardingjdbc/spring/boot/SpringBootConfiguration.java:92-98 | repeated names never produce a repeated key |
| `LinkedMaps.AppendNewSnoc` | sharding-jdbc-spring/sharding-jdbc-spring-boot-starter/src/main/java/io/shardingsphere/shardingjdbc/spring/boot/SpringBootConfiguration.java:92-98 | one more put appends its key only when the key is new, so keys follow first-occurrence order |
| `LinkedMaps.AppendNewFresh` | sharding-jdbc-spring/sharding-jdbc-spring-boot-starter/src/main/java/io/shardingsphere/shardingjdbc/spring/boot/SpringBootConfiguration.java:92-98 | distinct new names become keys exactly in the order they were put |
| `LinkedMaps.LinkedHashMap.constructor` | sharding-jdbc-spring/sharding-jdbc-spring-boot-starter/src/main/java/io/shardingsphere/shardingjdbc/spring/boot/SpringBootConfiguration.java:66 | `new LinkedHashMap<>()` is empty |
| `LinkedMaps.LinkedHashMap.Put` | sharding-jdbc-spring/sharding-jdbc-spring-boot-starter/src/main/java/io/shardingsphere/shardingjdbc/spring/boot/SpringBootConfiguration.java:98 | `put` keeps keys unique; afterwards the key maps to the value and every other key maps to what it did |
| `NameList.ResolvedNames` | sharding-jdbc-spring/sharding-jdbc-spring-boot-starter/src/main/java/io/shardingsphere/shardingjdbc/spring/boot/SpringBootConfiguration.java:105-110 | definition of the list `getDataSourceNames` returns; characterized by `ConcatMapMember` (membership iff some token's expansion holds the name) and `GetDataSourceNames`, whose loop is proved equal to it |
| `NameList.ConcatMapSnoc` | sharding-jdbc-spring/sharding-jdbc-spring-boot-starter/src/main/java/io/shardingsphere/shardingjdbc/spring/boot/SpringBootConfiguration.java:107-108 | each `addAll` appends the next token's expansion after everything before it |
| `NameList.ConcatMapMember` | sharding-jdbc-spring/sharding-jdbc-spring-boot-starter/src/main/java/io/shardingsphere/shardingjdbc/spring/boot/SpringBootConfiguration.java:105-110 | a name is resolved if and only if the expansion of some token holds it |
| `NameList.ConcatMapLiteral` | sharding-jdbc-spring/sharding-jdbc-spring-boot-starter/src/main/java/io/shardingsphere/shardingjdbc/spring/boot/SpringBootConfiguration.java:108 | tokens that expand to themselves resolve to the token list unchanged |
| `NameList.GetDataSourceNames` | sharding-jdbc-spring/sharding-jdbc-spring-boot-starter/src/main/java/io/shardingsphere/shardingjdbc/spring/boot/SpringBootConfiguration.java:105-111 | the loop returns the in-order concatenation of the expansions of the untrimmed split tokens; a name is in it if and only if some token's expansion holds it |
| `Registry.BindPool` | sharding-jdbc-spring/sharding-jdbc-spring-boot-starter/src/main/java/io/shardingsphere/shardingjdbc/spring/boot/SpringBootConfiguration.java:94-100 | an empty sub-map gives the illegal-state error, a missing `type` the null dereference, a failed type load the sharding error; otherwise the pool comes from `type` and the sub-map read under the trimmed name |
| `Registry.BuildFrom` | sharding-jdbc-spring/sharding-jdbc-spring-boot-starter/src/main/java/io/shardingsphere/shardingjdbc/spring/boot/SpringBootConfiguration.java:92-102 | definition of the for loop over the resolved names; characterized by `BuildFromSucceeds`, `AbortsAtFirstFailure`, `BuildFromKeys`, `BuildFromLookup`, `BuildFromKeepsKeys`, `BuildFromKeeps` and `BuildFromDistinct` |
| `Registry.Configure` | sharding-jdbc-spring/sharding-jdbc-spring-boot-starter/src/main/java/io/shardingsphere/shardingjdbc/spring/boot/SpringBootConfiguration.java:89-103 | definition of all of `setDataSourceMap`, including the null dereference at the split when the names property is null; characterized by `FreshBuild` and `ConfigureTwice`, and implemented by `SetDataSourceMap` |
| `Registry.BindPoolTrimmed` | sharding-jdbc-spring/sharding-jdbc-spring-boot-starter/src/main/java/io/shardingsphere/shardingjdbc/spring/boot/SpringBootConfiguration.java:94 | names that trim alike bind alike, since properties are read under `prefix + name.trim()` |
| `Registry.BuildFromAppend` | sharding-jdbc-spring/sharding-jdbc-spring-boot-starter/src/main/java/io/shardingsphere/shardingjdbc/spring/boot/SpringBootConfiguration.java:92-102 | the loop over `a + b` is the loop over `a` followed, only if that finished normally, by the loop over `b` |
| `Registry.BuildFromSucceeds` | sharding-jdbc-spring/sharding-jdbc-spring-boot-starter/src/main/java/io/shardingsphere/shardingjdbc/spring/boot/SpringBootConfiguration.java:92-102 | the loop completes if and only if every resolved name binds |
| `Registry.AbortsAtFirstFailure` | sharding-jdbc-spring/sharding-jdbc-spring-boot-starter/src/main/java/io/shardingsphere/shardingjdbc/spring/boot/SpringBootConfiguration.java:92-101 | at the first failing name the loop ends with that name's exception; the map holds exactly the entries of the earlier names, and the failing name and later names add nothing |
| `Registry.BuildFromFailsFirst` | sharding-jdbc-spring/sharding-jdbc-spring-boot-starter/src/main/java/io/shardingsphere/shardingjdbc/spring/boot/SpringBootConfiguration.java:95-100 | a failure at the first name leaves the map as it was |
| `Registry.BuildFromKeys` | sharding-jdbc-spring/sharding-jdbc-spring-boot-starter/src/main/java/io/shardingsphere/shardingjdbc/spring/boot/SpringBootConfiguration.java:92-98 | after a completed loop the keys are the old keys followed by each new resolved name in first-occurrence order |
| `Registry.BuildFromLookup` | sharding-jdbc-spring/sharding-jdbc-spring-boot-starter/src/main/java/io/shardingsphere/shardingjdbc/spring/boot/SpringBootConfiguration.java:94-98 | after a completed loop every resolved name, untrimmed, maps to the pool built for it |
| `Registry.BuildFromKeepsKeys` | sharding-jdbc-spring/sharding-jdbc-spring-boot-starter/src/main/java/io/shardingsphere/shardingjdbc/spring/boot/SpringBootConfiguration.java:92-102 | whether it completes or aborts, the loop removes no key and moves none |
| `Registry.BuildFromKeeps` | sharding-jdbc-spring/sharding-jdbc-spring-boot-starter/src/main/java/io/shardingsphere/shardingjdbc/spring/boot/SpringBootConfiguration.java:92-102 | whether it completes or aborts, a key that no resolved name touches keeps its value |
| `Registry.BuildFromDistinct` | sharding-jdbc-spring/sharding-jdbc-spring-boot-starter/src/main/java/io/shardingsphere/shardingjdbc/spring/boot/SpringBootConfiguration.java:92-102 | the map's keys stay unique through any build |
| `Registry.BuildFromUnchanged` | sharding-jdbc-spring/sharding-jdbc-spring-boot-starter/src/main/java/io/shardingsphere/shardingjdbc/spring/boot/SpringBootConfiguration.java:92-98 | re-putting pools the map already holds completes and changes nothing |
| `Registry.FreshBuild` | sharding-jdbc-spring/sharding-jdbc-spring-boot-starter/src/main/java/io/shardingsphere/shardingjdbc/spring/boot/SpringBootConfiguration.java:66-103 | from the new empty map, a completed build has unique keys, exactly the resolved names, in first-occurrence order |
| `Registry.ConfigureTwice` | sharding-jdbc-spring/sharding-jdbc-spring-boot-starter/src/main/java/io/shardingsphere/shardingjdbc/spring/boot/SpringBootConfiguration.java:84-103 | setting the same environment a second time after a completed build completes again with the same keys in the same order, each mapped to a pool built from the same configuration |
| `Registry.UntrimmedKeyExample` | sharding-jdbc-spring/sharding-jdbc-spring-boot-starter/src/main/java/io/shardingsphere/shardingjdbc/spring/boot/SpringBootConfiguration.java:94-98 | a resolved name `" ds0 "` is stored under `" ds0 "` with the pool configured for `ds0` |
| `SpringBoot.SpringBootConfiguration.constructor` | sharding-jdbc-spring/sharding-jdbc-spring-boot-starter/src/main/java/io/shardingsphere/shardingjdbc/spring/boot/SpringBootConfiguration.java:55-66 | the given getter results of the property objects, and a fresh empty map |
| `SpringBoot.SpringBootConfiguration.DataSource` | sharding-jdbc-spring/sharding-jdbc-spring-boot-starter/src/main/java/io/shardingsphere/shardingjdbc/spring/boot/SpringBootConfiguration.java:75-81 | exactly one factory is called: the sharding one if and only if the master name is null (an empty name selects master-slave); each gets its own rule configuration, and both get the same map, config map and properties |
| `SpringBoot.SpringBootConfiguration.SetEnvironment` | sharding-jdbc-spring/sharding-jdbc-spring-boot-starter/src/main/java/io/shardingsphere/shardingjdbc/spring/boot/SpringBootConfiguration.java:83-86 | runs the build into the existing map and never clears it: the old keys remain in front, in their order |
| `SpringBoot.SpringBootConfiguration.SetDataSourceMap` | sharding-jdbc-spring/sharding-jdbc-spring-boot-starter/src/main/java/io/shardingsphere/shardingjdbc/spring/boot/SpringBootConfiguration.java:88-103 | the loop leaves the map and the escaping exception exactly as `Configure` gives them from the old map, and keeps the keys unique |

## Left out

- Spring wiring (`@Configuration`, `@Bean`, `@EnableConfigurationProperties`, `EnvironmentAware`, property binding): this is framework lifecycle, not logic. The results of the property objects' getters are constructor arguments.
- `InlineExpressionParser` (ranges, alternations, Groovy evaluation): not part of this model. It is the parameter `expand`, a total deterministic function: the model assumes the expander never throws and returns the same names for the same token, and assumes nothing else about it.
- `Environment.getProperty` and `PropertyUtil.handle`: configuration I/O. They are the two functions of `Environment`. Both are assumed total and never to throw; in particular a `ReflectiveOperationException` from `PropertyUtil.handle`, which line 100 would also turn into `ShardingException("Can't find datasource type!")`, is not modelled, and `Registry.BindPool` attributes that error only to `create`. A null returned by `PropertyUtil.handle` is not modelled either.
- `DataSourceUtil.getDataSource`: reflective class loading and live pools. It is the parameter `create`. Its only modelled failure is `ReflectiveOperationException`; other runtime exceptions it may throw are not modelled.
- `ShardingDataSourceFactory` and `MasterSlaveDataSourceFactory`, with their `SQLException`: external. Each is a tagged `AggregateDataSource` value.
- Aliasing: the Java factories receive the live map object. The model records its entries at the time of the call, so later mutation of the map is not reflected in the aggregate.
- Property values are Java `Object`s read through `toString()`. They are modelled as strings.
- Registry.BuildFromLookup: does not distinguish pool object identity. `create` is a function, so every occurrence of a repeated name builds the same value; "the last put wins" is proved at the map level (`LinkedMaps.PutEntryLookupSame`, `LinkedMaps.PutEntryKeys`), not as a choice between distinct pool objects.
- SpringBoot.SpringBootConfiguration.DataSource: reads the rule configurations, config map and props fixed at construction. Java calls `getShardingRuleConfiguration()`, `getMasterSlaveRuleConfiguration()`, `getConfigMap()` and `getProps()` inside `dataSource()` (lines 78 and 80), each rule getter only on its own branch; the model does not capture property objects whose getters change value over time, nor which getters are called.
- Registry.ConfigureTwice: "the same map" means the same keys in the same order, each mapped to a pool built from the same `type` and properties, not the same object. In Java the second `setEnvironment` builds a new pool for every name and `put`s it over the first, orphaning the first pools; `create` being a function hides that.
- Registry.BuildFromUnchanged: equal values stand for pools built from the same configuration, not for the same pool object, for the reason given for `Registry.ConfigureTwice`.
