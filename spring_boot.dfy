/**
 * The Spring Boot configuration object: it owns the insertion-ordered data
 * source map, fills it when the environment is set, and assembles the
 * aggregate data source through one of two factories.
 */
module SpringBoot {
  import opened Wrappers
  import opened JavaStrings
  import opened LinkedMaps
  import opened NameList
  import opened Registry

  /** The master-slave rule properties: the master data source name (null when unset) and the rule. */
  datatype MasterSlaveProperties<M> =
    MasterSlaveProperties(masterDataSourceName: Option<string>, masterSlaveRuleConfiguration: M)

  /**
   * The data source a factory returns, tagged with the factory that built it and the
   * arguments it received: ShardingDataSourceFactory.createDataSource or
   * MasterSlaveDataSourceFactory.createDataSource.
   */
  datatype AggregateDataSource<P, S, M> =
    | ShardingDataSource(dataSourceMap: seq<(string, P)>, shardingRuleConfiguration: S,
                         configMap: Props, props: Props)
    | MasterSlaveDataSource(dataSourceMap: seq<(string, P)>, masterSlaveRuleConfiguration: M,
                            configMap: Props, props: Props)

  class SpringBootConfiguration<P, S, M> {
    /** shardingProperties.getShardingRuleConfiguration() */
    const shardingRuleConfiguration: S
    const masterSlaveProperties: MasterSlaveProperties<M>
    /** configMapProperties.getConfigMap() */
    const configMap: Props
    /** propMapProperties.getProps() */
    const props: Props
    /** The final LinkedHashMap field; the object never changes, its entries do. */
    const dataSourceMap: LinkedHashMap<P>

    ghost predicate Valid()
      reads this, dataSourceMap
    {
      dataSourceMap.Valid()
    }

    /** The generated constructor: the values the four property objects' getters return, and an empty map. */
    constructor (shardingRuleConfiguration: S, masterSlaveProperties: MasterSlaveProperties<M>,
                 configMap: Props, props: Props)
      ensures Valid() && fresh(dataSourceMap)
      ensures dataSourceMap.entries == []
      ensures this.shardingRuleConfiguration == shardingRuleConfiguration
      ensures this.masterSlaveProperties == masterSlaveProperties
      ensures this.configMap == configMap && this.props == props
    {
      this.shardingRuleConfiguration := shardingRuleConfiguration;
      this.masterSlaveProperties := masterSlaveProperties;
      this.configMap := configMap;
      this.props := props;
      dataSourceMap := new LinkedHashMap();
    }

    /**
     * `dataSource()`: exactly one factory is called. A null master name selects the
     * sharding factory; any other master name, the empty string included, selects the
     * master-slave factory. Both receive the same map, config map and properties.
     */
    function DataSource(): (r: AggregateDataSource<P, S, M>)
      reads this, dataSourceMap
      ensures r.ShardingDataSource? <==> masterSlaveProperties.masterDataSourceName.None?
      ensures r.dataSourceMap == dataSourceMap.entries && r.configMap == configMap && r.props == props
      ensures r.ShardingDataSource? ==> r.shardingRuleConfiguration == shardingRuleConfiguration
      ensures r.MasterSlaveDataSource? ==>
                r.masterSlaveRuleConfiguration == masterSlaveProperties.masterSlaveRuleConfiguration
    {
      if masterSlaveProperties.masterDataSourceName.None? then
        ShardingDataSource(dataSourceMap.entries, shardingRuleConfiguration, configMap, props)
      else
        MasterSlaveDataSource(dataSourceMap.entries, masterSlaveProperties.masterSlaveRuleConfiguration,
                              configMap, props)
    }

    /**
     * `setEnvironment`: builds into the existing map, which is never cleared. The
     * returned error is the exception that escapes; None means normal completion.
     */
    method SetEnvironment(env: Environment, expand: string -> seq<string>,
                          create: (string, Props) -> Option<P>) returns (error: Option<BuildError>)
      requires Valid()
      modifies dataSourceMap
      ensures Valid()
      ensures BuildResult(dataSourceMap.entries, error) == Configure(old(dataSourceMap.entries), env, expand, create)
      ensures Keys(old(dataSourceMap.entries)) <= Keys(dataSourceMap.entries)
    {
      error := SetDataSourceMap(env, expand, create);
      if env.getProperty(NamesKey).Some? {
        BuildFromKeepsKeys(old(dataSourceMap.entries), ResolvedNames(env.getProperty(NamesKey).value, expand),
                           env, create);
      }
    }

    /**
     * `setDataSourceMap`: the loop over the resolved names. Each pass that completes
     * puts one entry under the untrimmed name; the first exception ends the loop.
     */
    method SetDataSourceMap(env: Environment, expand: string -> seq<string>,
                            create: (string, Props) -> Option<P>) returns (error: Option<BuildError>)
      requires Valid()
      modifies dataSourceMap
      ensures Valid()
      ensures BuildResult(dataSourceMap.entries, error) == Configure(old(dataSourceMap.entries), env, expand, create)
    {
      var dataSources := env.getProperty(NamesKey);
      if dataSources.None? {
        return Some(NullPointerException);
      }
      var names := GetDataSourceNames(dataSources.value, expand);
      ghost var goal := BuildFrom(dataSourceMap.entries, names, env, create);
      var i := 0;
      while i < |names|
        invariant 0 <= i <= |names|
        invariant Valid()
        invariant BuildFrom(dataSourceMap.entries, names[i..], env, create) == goal
      {
        var each := names[i];
        assert names[i..][0] == each && names[i..][1..] == names[i + 1..];
        var dataSourceProps := env.handle(Prefix + Trim(each));
        if |dataSourceProps| == 0 {
          return Some(IllegalStateException(WrongProperties));
        }
        if TypeKey !in dataSourceProps {
          return Some(NullPointerException);
        }
        var dataSource := create(dataSourceProps[TypeKey], dataSourceProps);
        if dataSource.None? {
          return Some(ShardingException(TypeNotFound));
        }
        dataSourceMap.Put(each, dataSource.value);
        i := i + 1;
      }
      return None;
    }
  }
}
