/**
 * The registry build of `setDataSourceMap`, stated as functions on the entry
 * sequence of the ordered map: for each resolved name in order, fetch the
 * properties under the trimmed name, reject an empty property map, build a
 * pool from the `type` entry, and put it under the untrimmed name. The first
 * failure ends the build and leaves the entries put so far.
 */
module Registry {
  import opened Wrappers
  import opened JavaStrings
  import opened LinkedMaps
  import opened NameList

  const Prefix: string := "sharding.jdbc.datasource."
  const NamesKey: string := Prefix + "names"
  const TypeKey: string := "type"
  const WrongProperties: string := "Wrong datasource properties!"
  const TypeNotFound: string := "Can't find datasource type!"

  /** The properties of one data source, each value rendered with toString(). */
  type Props = map<string, string>

  /**
   * The configuration source: `getProperty` (None where Java returns null) and
   * the sub-map binding `PropertyUtil.handle(environment, prefix, Map.class)`.
   */
  datatype Environment = Environment(getProperty: string -> Option<string>, handle: string -> Props)

  /** The exceptions that end the build. */
  datatype BuildError =
    | NullPointerException
    | IllegalStateException(message: string)
    | ShardingException(message: string)

  /** The entries the build leaves in the map, and the exception it ended with, if any. */
  datatype BuildResult<P> = BuildResult(entries: seq<(string, P)>, error: Option<BuildError>)

  /**
   * One iteration of the loop: the pool for `name`, or the exception that ends the build.
   * `create` stands for DataSourceUtil.getDataSource; None means it threw a
   * ReflectiveOperationException.
   */
  function BindPool<P>(name: string, env: Environment, create: (string, Props) -> Option<P>): (r: Result<P, BuildError>)
    ensures var props := env.handle(Prefix + Trim(name));
      && (r == Failure(IllegalStateException(WrongProperties)) <==> |props| == 0)
      && (r == Failure(NullPointerException) <==> |props| != 0 && TypeKey !in props)
      && (r == Failure(ShardingException(TypeNotFound)) <==>
            |props| != 0 && TypeKey in props && create(props[TypeKey], props).None?)
      && (r.Success? <==> |props| != 0 && TypeKey in props && create(props[TypeKey], props).Some?)
      && (r.Success? ==> create(props[TypeKey], props) == Some(r.value))
  {
    var props := env.handle(Prefix + Trim(name));
    if |props| == 0 then Failure(IllegalStateException(WrongProperties))
    else if TypeKey !in props then Failure(NullPointerException)
    else match create(props[TypeKey], props)
      case None => Failure(ShardingException(TypeNotFound))
      case Some(pool) => Success(pool)
  }

  /** The loop over `names`, starting from the entries already in the map. */
  function BuildFrom<P>(entries: seq<(string, P)>, names: seq<string>, env: Environment,
                        create: (string, Props) -> Option<P>): (r: BuildResult<P>)
    decreases |names|
  {
    if names == [] then BuildResult(entries, None)
    else match BindPool(names[0], env, create)
      case Failure(e) => BuildResult(entries, Some(e))
      case Success(pool) => BuildFrom(PutEntry(entries, names[0], pool), names[1..], env, create)
  }

  /** All of `setDataSourceMap`: a null names property fails at the split, before the loop. */
  function Configure<P>(entries: seq<(string, P)>, env: Environment, expand: string -> seq<string>,
                        create: (string, Props) -> Option<P>): (r: BuildResult<P>)
  {
    match env.getProperty(NamesKey)
    case None => BuildResult(entries, Some(NullPointerException))
    case Some(dataSources) => BuildFrom(entries, ResolvedNames(dataSources, expand), env, create)
  }

  /** Names that trim alike bind alike: the properties are always read under the trimmed name. */
  lemma BindPoolTrimmed<P>(a: string, b: string, env: Environment, create: (string, Props) -> Option<P>)
    requires Trim(a) == Trim(b)
    ensures BindPool(a, env, create) == BindPool(b, env, create)
  {
  }

  /** Running the loop over `a + b` runs it over `a`, then, if that succeeded, over `b`. */
  lemma {:induction false} BuildFromAppend<P>(entries: seq<(string, P)>, a: seq<string>, b: seq<string>,
                                              env: Environment, create: (string, Props) -> Option<P>)
    ensures BuildFrom(entries, a + b, env, create)
         == var first := BuildFrom(entries, a, env, create);
            if first.error.None? then BuildFrom(first.entries, b, env, create) else first
    decreases |a|
  {
    if a == [] {
      assert a + b == b;
    } else {
      assert (a + b)[0] == a[0] && (a + b)[1..] == a[1..] + b;
      match BindPool(a[0], env, create)
      case Failure(e) =>
      case Success(pool) =>
        BuildFromAppend(PutEntry(entries, a[0], pool), a[1..], b, env, create);
    }
  }

  /** The build succeeds exactly when every name binds. */
  lemma {:induction false} BuildFromSucceeds<P>(entries: seq<(string, P)>, names: seq<string>,
                                                env: Environment, create: (string, Props) -> Option<P>)
    ensures BuildFrom(entries, names, env, create).error.None?
        <==> forall i :: 0 <= i < |names| ==> BindPool(names[i], env, create).Success?
    decreases |names|
  {
    if names != [] {
      match BindPool(names[0], env, create)
      case Failure(e) =>
      case Success(pool) =>
        BuildFromSucceeds(PutEntry(entries, names[0], pool), names[1..], env, create);
        assert forall i :: 1 <= i < |names| ==> names[i] == names[1..][i - 1];
    }
  }

  /**
   * Abort at the first failure: when the names before position i all bind and names[i]
   * does not, the build ends with that exception and exactly the entries of the
   * earlier names; names[i] and the names after it add nothing.
   */
  lemma {:induction false} AbortsAtFirstFailure<P>(entries: seq<(string, P)>, names: seq<string>, i: nat,
                                                  env: Environment, create: (string, Props) -> Option<P>)
    requires i < |names|
    requires BuildFrom(entries, names[..i], env, create).error.None?
    requires BindPool(names[i], env, create).Failure?
    ensures BuildFrom(entries, names, env, create)
         == BuildResult(BuildFrom(entries, names[..i], env, create).entries,
                        Some(BindPool(names[i], env, create).error))
    decreases i
  {
    if i == 0 {
      BuildFromFailsFirst(entries, names, env, create);
    } else {
      assert names[..i][0] == names[0] && names[..i][1..] == names[1..][..i - 1];
      var pool := BindPool(names[0], env, create).value;
      var next := PutEntry(entries, names[0], pool);
      assert BuildFrom(entries, names[..i], env, create) == BuildFrom(next, names[1..][..i - 1], env, create);
      assert BuildFrom(entries, names, env, create) == BuildFrom(next, names[1..], env, create);
      assert names[1..][i - 1] == names[i];
      AbortsAtFirstFailure(next, names[1..], i - 1, env, create);
    }
  }

  /** A build whose first name does not bind ends at once, with the map as it was. */
  lemma BuildFromFailsFirst<P>(entries: seq<(string, P)>, names: seq<string>,
                               env: Environment, create: (string, Props) -> Option<P>)
    requires names != [] && BindPool(names[0], env, create).Failure?
    ensures BuildFrom(entries, names, env, create) == BuildResult(entries, Some(BindPool(names[0], env, create).error))
  {
  }

  /** The put order: on success the keys are the old keys followed by each new name, first occurrence first. */
  lemma {:induction false} BuildFromKeys<P>(entries: seq<(string, P)>, names: seq<string>,
                                            env: Environment, create: (string, Props) -> Option<P>)
    requires BuildFrom(entries, names, env, create).error.None?
    ensures Keys(BuildFrom(entries, names, env, create).entries) == AppendNew(Keys(entries), names)
    decreases |names|
  {
    if names != [] {
      var pool := BindPool(names[0], env, create).value;
      PutEntryKeys(entries, names[0], pool);
      BuildFromKeys(PutEntry(entries, names[0], pool), names[1..], env, create);
    }
  }

  /**
   * On success every resolved name, untrimmed, maps to the pool built for it; for a
   * repeated name the last put wins (the keys other names leave alone: BuildFromKeeps).
   */
  lemma {:induction false} BuildFromLookup<P>(entries: seq<(string, P)>, names: seq<string>, key: string,
                                              env: Environment, create: (string, Props) -> Option<P>)
    requires BuildFrom(entries, names, env, create).error.None?
    requires key in names
    ensures BindPool(key, env, create).Success?
    ensures Lookup(BuildFrom(entries, names, env, create).entries, key) == Some(BindPool(key, env, create).value)
    decreases |names|
  {
    match BindPool(names[0], env, create)
    case Success(pool) =>
      var next := PutEntry(entries, names[0], pool);
      assert BuildFrom(entries, names, env, create) == BuildFrom(next, names[1..], env, create);
      if key in names[1..] {
        BuildFromLookup(next, names[1..], key, env, create);
      } else {
        assert key == names[0] by {
          assert names == [names[0]] + names[1..];
        }
        PutEntryLookupSame(entries, key, pool);
        BuildFromKeeps(next, names[1..], key, env, create);
      }
  }

  /** Whatever happens, nothing is removed: the old keys stay in front, in their order. */
  lemma {:induction false} BuildFromKeepsKeys<P>(entries: seq<(string, P)>, names: seq<string>,
                                                 env: Environment, create: (string, Props) -> Option<P>)
    ensures Keys(entries) <= Keys(BuildFrom(entries, names, env, create).entries)
    decreases |names|
  {
    if names != [] {
      match BindPool(names[0], env, create)
      case Failure(e) =>
      case Success(pool) =>
        BuildFromKeepsKeys(PutEntry(entries, names[0], pool), names[1..], env, create);
        PutEntryKeys(entries, names[0], pool);
    }
  }

  /** Whatever happens, a key that no resolved name touches keeps its value. */
  lemma {:induction false} BuildFromKeeps<P>(entries: seq<(string, P)>, names: seq<string>, key: string,
                                             env: Environment, create: (string, Props) -> Option<P>)
    requires key !in names
    ensures Lookup(BuildFrom(entries, names, env, create).entries, key) == Lookup(entries, key)
    decreases |names|
  {
    if names != [] {
      match BindPool(names[0], env, create)
      case Failure(e) =>
      case Success(pool) =>
        assert key !in names[1..] && key != names[0];
        BuildFromKeeps(PutEntry(entries, names[0], pool), names[1..], key, env, create);
        PutEntryLookupOther(entries, names[0], pool, key);
    }
  }

  /** The map keeps distinct keys through any build, finished or aborted. */
  lemma {:induction false} BuildFromDistinct<P>(entries: seq<(string, P)>, names: seq<string>,
                                                env: Environment, create: (string, Props) -> Option<P>)
    requires Distinct(Keys(entries))
    ensures Distinct(Keys(BuildFrom(entries, names, env, create).entries))
    decreases |names|
  {
    if names != [] {
      match BindPool(names[0], env, create)
      case Failure(e) =>
      case Success(pool) =>
        PutEntryDistinct(entries, names[0], pool);
        BuildFromDistinct(PutEntry(entries, names[0], pool), names[1..], env, create);
    }
  }

  /** Re-putting the pools the map already holds leaves it as it is and succeeds. */
  lemma {:induction false} BuildFromUnchanged<P>(entries: seq<(string, P)>, names: seq<string>,
                                                 env: Environment, create: (string, Props) -> Option<P>)
    requires forall i :: 0 <= i < |names| ==>
      && BindPool(names[i], env, create).Success?
      && Lookup(entries, names[i]) == Some(BindPool(names[i], env, create).value)
    ensures BuildFrom(entries, names, env, create) == BuildResult(entries, None)
    decreases |names|
  {
    if names != [] {
      var pool := BindPool(names[0], env, create).value;
      PutEntrySame(entries, names[0], pool);
      assert forall i :: 1 <= i < |names| ==> names[1..][i - 1] == names[i];
      BuildFromUnchanged(entries, names[1..], env, create);
    }
  }

  /** Starting from an empty map, a successful build holds exactly the resolved names, first occurrence first. */
  lemma FreshBuild<P>(env: Environment, expand: string -> seq<string>, create: (string, Props) -> Option<P>,
                      dataSources: string)
    requires env.getProperty(NamesKey) == Some(dataSources)
    requires Configure([], env, expand, create).error.None?
    ensures var keys := Keys(Configure([], env, expand, create).entries);
      && keys == AppendNew([], ResolvedNames(dataSources, expand))
      && Distinct(keys)
      && forall n :: n in keys <==> n in ResolvedNames(dataSources, expand)
  {
    var names := ResolvedNames(dataSources, expand);
    BuildFromKeys([], names, env, create);
    AppendNewDistinct([], names);
    forall n ensures n in AppendNew([], names) <==> n in names {
      AppendNewElements([], names, n);
    }
  }

  /** Running the whole build a second time on the same configuration changes nothing. */
  lemma ConfigureTwice<P>(entries: seq<(string, P)>, env: Environment, expand: string -> seq<string>,
                          create: (string, Props) -> Option<P>)
    requires Configure(entries, env, expand, create).error.None?
    ensures Configure(Configure(entries, env, expand, create).entries, env, expand, create)
         == Configure(entries, env, expand, create)
  {
    var names := ResolvedNames(env.getProperty(NamesKey).value, expand);
    var first := BuildFrom(entries, names, env, create);
    BuildFromSucceeds(entries, names, env, create);
    forall i | 0 <= i < |names|
      ensures BindPool(names[i], env, create).Success?
      ensures Lookup(first.entries, names[i]) == Some(BindPool(names[i], env, create).value)
    {
      assert names[i] in names;
      BuildFromLookup(entries, names, names[i], env, create);
    }
    BuildFromUnchanged(first.entries, names, env, create);
  }

  /** A name with surrounding blanks is stored with them, while its properties come from the trimmed name. */
  lemma UntrimmedKeyExample<P>(env: Environment, create: (string, Props) -> Option<P>)
    requires BindPool("ds0", env, create).Success?
    ensures BuildFrom([], [" ds0 "], env, create).entries == [(" ds0 ", BindPool("ds0", env, create).value)]
  {
    TrimExample();
    assert Trim("ds0") == "ds0" by {
      TrimIdempotent(" ds0 ");
    }
    BindPoolTrimmed(" ds0 ", "ds0", env, create);
  }
}
