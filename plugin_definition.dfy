/**
 * Plugin definitions as they appear in the plugin list: either a bare package name or an object
 * naming the package, with an optional version, loading mode and configuration.
 */
module PluginDefinitions {
  import opened Wrappers

  /** A configuration value: `string | number | boolean`. */
  datatype Scalar = Text(s: string) | Num(n: real) | Flag(b: bool)

  datatype Mode = Static | Dynamic

  /** The object form of a definition. */
  datatype FullDefinition = FullDefinition(
    name: string,
    version: Option<string>,
    mode: Option<Mode>,
    config: Option<map<string, Scalar>>)

  /** A definition as written in the list. */
  datatype PluginDefinition = ByName(packageName: string) | Full(definition: FullDefinition)

  /** The package a definition names. */
  function NameOf(plugin: PluginDefinition): string {
    match plugin
    case ByName(n) => n
    case Full(d) => d.name
  }

  /** `getFullDefinition`: a string `s` becomes `{name: s}`; an object is returned as it is. */
  function GetFullDefinition(plugin: PluginDefinition): (r: FullDefinition)
    ensures r.name == NameOf(plugin)
    ensures plugin.Full? ==> r == plugin.definition
    ensures plugin.ByName? ==> r.version.None? && r.mode.None? && r.config.None?
  {
    match plugin
    case ByName(n) => FullDefinition(n, None, None, None)
    case Full(d) => d
  }

  /** Normalising an already normalised definition changes nothing. */
  lemma GetFullDefinitionIdempotent(plugin: PluginDefinition)
    ensures GetFullDefinition(Full(GetFullDefinition(plugin))) == GetFullDefinition(plugin)
  {
  }

  /** Two definitions normalise alike exactly when they are the same definition, or a bare name and its bare object form. */
  lemma GetFullDefinitionInjective(a: PluginDefinition, b: PluginDefinition)
    ensures GetFullDefinition(a) == GetFullDefinition(b) <==>
            a == b
            || (a.ByName? && b == Full(FullDefinition(a.packageName, None, None, None)))
            || (b.ByName? && a == Full(FullDefinition(b.packageName, None, None, None)))
  {
  }
}
