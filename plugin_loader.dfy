/**
 * The decisions of the plugin module: resolving `$NAME` references in a plugin's configuration
 * against the environment, dropping plugins that failed to load, and splitting the loaded ones
 * into those mounted under a route and those imported as they are.
 */
module PluginLoader {
  import opened Wrappers
  import opened SeqFacts
  import opened PluginDefinitions

  /** The process environment. */
  type Env = map<string, string>

  /** A resolved configuration value; `None` is `undefined`, what an unset variable reads as. */
  type Resolved = Option<Scalar>

  /** The regular expression `^\$[A-Z_]*$`: a dollar sign, then only capital letters and underscores. */
  predicate IsEnvReference(s: string) {
    |s| >= 1 && s[0] == '$' && forall i :: 1 <= i < |s| ==> ('A' <= s[i] <= 'Z' || s[i] == '_')
  }

  predicate RefersToEnv(v: Scalar) {
    v.Text? && IsEnvReference(v.s)
  }

  /** `process.env[name]`. */
  function EnvLookup(env: Env, name: string): Resolved {
    if name in env then Some(Text(env[name])) else None
  }

  /** The entries kept by the filter and rewritten by the map: each reference and the variable it names. */
  function EnvEntries(config: map<string, Scalar>, env: Env): map<string, Resolved> {
    map key | key in config && RefersToEnv(config[key]) :: EnvLookup(env, config[key].s[1..])
  }

  /** `resolveConfig(config)`: `{}` for a missing configuration, else `{...config, ...Object.fromEntries(envEntries)}`. */
  function ResolveConfig(config: Option<map<string, Scalar>>, env: Env): map<string, Resolved> {
    if config.None? then map[]
    else (map key | key in config.value :: Some(config.value[key])) + EnvEntries(config.value, env)
  }

  /**
   * Resolution keeps every key; a reference is replaced by the variable it names (possibly
   * `undefined`), and every other value is kept.
   */
  lemma ResolveConfigEntries(config: Option<map<string, Scalar>>, env: Env)
    ensures config.None? ==> ResolveConfig(config, env) == map[]
    ensures config.Some? ==> ResolveConfig(config, env).Keys == config.value.Keys
    ensures config.Some? ==> forall key :: key in config.value ==>
              ResolveConfig(config, env)[key]
              == if RefersToEnv(config.value[key]) then EnvLookup(env, config.value[key].s[1..])
                 else Some(config.value[key])
  {
  }

  /** A configuration without references resolves to itself, whatever the environment. */
  lemma NoReferencesResolveToThemselves(config: map<string, Scalar>, env: Env)
    requires forall key :: key in config ==> !RefersToEnv(config[key])
    ensures ResolveConfig(Some(config), env) == map key | key in config :: Some(config[key])
  {
    assert EnvEntries(config, env) == map[];
  }

  /** Only the variables a configuration names matter. */
  lemma ResolutionReadsOnlyNamedVariables(config: map<string, Scalar>, env: Env, env': Env)
    requires forall key :: key in config && RefersToEnv(config[key]) ==>
               EnvLookup(env, config[key].s[1..]) == EnvLookup(env', config[key].s[1..])
    ensures ResolveConfig(Some(config), env) == ResolveConfig(Some(config), env')
  {
    assert EnvEntries(config, env) == EnvEntries(config, env');
  }

  /** A loaded plugin: the module (an opaque identity) and the metadata it carries. */
  datatype Loaded = Loaded(nestModule: nat, pluginName: Option<string>)

  /** `!!module[1].pluginName`: a name is present and is not the empty string. */
  predicate IsRoutable(m: Loaded) {
    m.pluginName.Some? && m.pluginName.value != ""
  }

  /** `sift(results)`: the load results with the `null`s (failed or empty loads) removed, in order. */
  function Sift(results: seq<Option<Loaded>>): seq<Loaded> {
    if results == [] then []
    else (if results[0].Some? then [results[0].value] else []) + Sift(results[1..])
  }

  /** `fork(modules, isRoutable)`: those that satisfy the test, and those that do not, each in order. */
  function Fork(modules: seq<Loaded>): (seq<Loaded>, seq<Loaded>) {
    if modules == [] then ([], [])
    else
      var rest := Fork(modules[1..]);
      if IsRoutable(modules[0]) then ([modules[0]] + rest.0, rest.1) else (rest.0, [modules[0]] + rest.1)
  }

  /** A module mounted under a route: `{module, path: metadata.pluginName}`. */
  datatype Route = Route(nestModule: nat, path: string)

  /** The routes of the routable modules (each of which has a name). */
  function Routes(routable: seq<Loaded>): (r: seq<Route>)
    ensures |r| == |routable|
    ensures forall i :: 0 <= i < |r| ==> r[i] == Route(routable[i].nestModule, routable[i].pluginName.GetOr(""))
  {
    if routable == [] then []
    else [Route(routable[0].nestModule, routable[0].pluginName.GetOr(""))] + Routes(routable[1..])
  }

  function ModulesOf(loaded: seq<Loaded>): (r: seq<nat>)
    ensures |r| == |loaded|
    ensures forall i :: 0 <= i < |r| ==> r[i] == loaded[i].nestModule
  {
    if loaded == [] then [] else [loaded[0].nestModule] + ModulesOf(loaded[1..])
  }

  /** What `forRoot` imports: the plain modules, and the routes of the routable ones. */
  datatype Imports = Imports(direct: seq<nat>, routes: seq<Route>)

  function PluginImports(results: seq<Option<Loaded>>): Imports {
    var split := Fork(Sift(results));
    ForkSides(Sift(results));
    Imports(ModulesOf(split.1), Routes(split.0))
  }

  /** Sifting keeps the order: sifting two lists of results back to back is sifting each. */
  lemma {:induction false} SiftConcat(first: seq<Option<Loaded>>, second: seq<Option<Loaded>>)
    ensures Sift(first + second) == Sift(first) + Sift(second)
    decreases |first|
  {
    if first == [] {
      assert first + second == second;
    } else {
      var head := if first[0].Some? then [first[0].value] else [];
      assert (first + second)[0] == first[0];
      assert (first + second)[1..] == first[1..] + second;
      SiftConcat(first[1..], second);
      AppendChain(Sift(first + second), Sift(first), Sift(second), head, Sift(first[1..]));
    }
  }

  /** Every element of the sift is some result's value, and every value of a result is in the sift. */
  lemma {:induction false} SiftMembers(results: seq<Option<Loaded>>)
    ensures forall m :: m in Sift(results) <==> Some(m) in results
    decreases |results|
  {
    if results != [] {
      SiftMembers(results[1..]);
      assert results == [results[0]] + results[1..];
    }
  }

  /** Forking sorts by the test: each routable module goes left, each other one right, none lost or repeated. */
  lemma {:induction false} ForkSides(modules: seq<Loaded>)
    ensures forall i :: 0 <= i < |Fork(modules).0| ==> IsRoutable(Fork(modules).0[i])
    ensures forall i :: 0 <= i < |Fork(modules).1| ==> !IsRoutable(Fork(modules).1[i])
    ensures multiset(Fork(modules).0) + multiset(Fork(modules).1) == multiset(modules)
    decreases |modules|
  {
    if modules != [] {
      ForkSides(modules[1..]);
      assert modules == [modules[0]] + modules[1..];
    }
  }

  /** Every loaded plugin is imported: routed under its name when it has one, imported directly otherwise. */
  lemma PluginsLandOnOneSide(results: seq<Option<Loaded>>, m: Loaded)
    requires Some(m) in results
    ensures IsRoutable(m) ==> Route(m.nestModule, m.pluginName.value) in PluginImports(results).routes
    ensures !IsRoutable(m) ==> m.nestModule in PluginImports(results).direct
  {
    SiftMembers(results);
    var split := Fork(Sift(results));
    ForkSides(Sift(results));
    assert m in multiset(Sift(results));
    if IsRoutable(m) {
      assert m !in multiset(split.1);
      assert m in split.0;
      var i :| 0 <= i < |split.0| && split.0[i] == m;
      assert Routes(split.0)[i] == Route(m.nestModule, m.pluginName.value);
    } else {
      assert m !in multiset(split.0);
      assert m in split.1;
      var i :| 0 <= i < |split.1| && split.1[i] == m;
      assert ModulesOf(split.1)[i] == m.nestModule;
    }
  }
}
