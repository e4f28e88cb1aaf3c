/** The Option and Result datatypes used across the model. */
module Wrappers {
  datatype Option<+T> = None | Some(value: T)

  datatype Result<+R, +E> = Success(value: R) | Failure(error: E)
}

/**
 * The data model of the CLI: the project configuration (`components.json`),
 * registry entries with their files, and the registry itself.
 */
module Types {
  import opened Wrappers

  /** `Config.style`: one of two literal tags. */
  datatype Style = Default | NewYork

  datatype Tailwind = Tailwind(
    config: string,
    css: string,
    baseColor: string,
    cssVariables: bool,
    prefix: string)

  /** `Config.aliases`: exactly the two alias strings. */
  datatype Aliases = Aliases(components: string, utils: string)

  datatype Config = Config(
    style: Style,
    rsc: bool,
    tsx: bool,
    tailwind: Tailwind,
    aliases: Aliases)

  /** The aliases `init --yes` writes into a fresh configuration. */
  const DefaultAliases := Aliases("@/components", "@/lib/utils")

  /**
   * One file of a registry entry. `content` is optional: `None` means no
   * body is available (not fetched, or the fetch failed).
   */
  datatype ComponentFile = ComponentFile(name: string, path: string, content: Option<string>)

  /** The optional `type` tag; informational only. */
  datatype ComponentType = UI | Composite | Example

  datatype ComponentInfo = ComponentInfo(
    name: string,
    description: string,
    dependencies: seq<string>,
    devDependencies: Option<seq<string>>,
    registryDependencies: Option<seq<string>>,
    files: seq<ComponentFile>,
    kind: Option<ComponentType>)

  /** An optional list field read as a list: absence is the empty list. */
  function OrEmpty(o: Option<seq<string>>): seq<string> {
    match o
    case Some(xs) => xs
    case None => []
  }

  /**
   * A JSON object `Record<string, ComponentInfo>`: its entries, and the order
   * in which `Object.keys` enumerates them.
   */
  datatype Record = Record(keys: seq<string>, entries: map<string, ComponentInfo>) {
    /** What a parsed JSON object always satisfies: each key listed once. */
    ghost predicate WellFormed() {
      && (forall i, j :: 0 <= i < j < |keys| ==> keys[i] != keys[j])
      && (forall k :: k in keys <==> k in entries)
    }
  }

  /** The registry manifest: two records keyed by component name. */
  datatype Registry = Registry(components: Record, lib: Record)
}
