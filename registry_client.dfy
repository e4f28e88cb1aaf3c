/**
 * The registry client of `packages/cli/src/utils/registry.ts`: lookup of a
 * component name in the two records of the manifest, the per-file fetch that
 * fills in file bodies, and the list of available names.
 *
 * The manifest is a fixed, given `Registry` (the network request that yields
 * it is not modelled), and the file store is an oracle: a file whose name is a
 * key of the store is fetched with that body; any other file's request fails.
 */
module RegistryClient {
  import opened Wrappers
  import opened Types

  /** Bodies the registry's file endpoint serves, by file name. */
  type FileStore = map<string, string>

  /** Every name the manifest knows, in either record. */
  function Names(reg: Registry): set<string> {
    reg.components.entries.Keys + reg.lib.entries.Keys
  }

  /** `registry.components[name] || registry.lib[name]`: components win. */
  function Lookup(reg: Registry, name: string): (r: Option<ComponentInfo>)
    ensures r.Some? <==> name in Names(reg)
    ensures name in reg.components.entries ==> r == Some(reg.components.entries[name])
    ensures name !in reg.components.entries && name in reg.lib.entries ==> r == Some(reg.lib.entries[name])
  {
    if name in reg.components.entries then Some(reg.components.entries[name])
    else if name in reg.lib.entries then Some(reg.lib.entries[name])
    else None
  }

  /**
   * One file of `fetchComponent`: a successful fetch yields the file with its
   * body as content; a failed one yields the file unchanged.
   */
  function FetchFile(file: ComponentFile, store: FileStore): (r: ComponentFile)
    ensures r.name == file.name && r.path == file.path
    ensures file.name in store ==> r.content == Some(store[file.name])
    ensures file.name !in store ==> r == file
  {
    if file.name in store then file.(content := Some(store[file.name])) else file
  }

  /** The `Promise.all` over `component.files.map(...)`, taken in order. */
  function FetchFiles(files: seq<ComponentFile>, store: FileStore): (r: seq<ComponentFile>)
    ensures |r| == |files|
    ensures forall i :: 0 <= i < |files| ==>
      && r[i].name == files[i].name
      && r[i].path == files[i].path
      && (files[i].name in store ==> r[i].content == Some(store[files[i].name]))
      && (files[i].name !in store ==> r[i] == files[i])
  {
    seq(|files|, i requires 0 <= i < |files| => FetchFile(files[i], store))
  }

  /**
   * `fetchComponent(name)` against the same manifest: `None` for an unknown
   * name, otherwise the entry with its files replaced by the fetched ones.
   */
  function FetchComponent(reg: Registry, store: FileStore, name: string): (r: Option<ComponentInfo>)
    ensures r.Some? <==> name in Names(reg)
    ensures r.Some? ==> r.value.(files := Lookup(reg, name).value.files) == Lookup(reg, name).value
    ensures r.Some? ==> r.value.files == FetchFiles(Lookup(reg, name).value.files, store)
  {
    match Lookup(reg, name)
    case None => None
    case Some(c) => Some(c.(files := FetchFiles(c.files, store)))
  }

  /**
   * `getAvailableComponents`: the keys of `components` followed by the keys
   * of `lib`; `None` stands for a manifest fetch that failed.
   */
  function AvailableComponents(fetched: Option<Registry>): (r: seq<string>)
    ensures fetched.None? ==> r == []
    ensures fetched.Some? ==> |r| == |fetched.value.components.keys| + |fetched.value.lib.keys|
    ensures fetched.Some? ==> r[..|fetched.value.components.keys|] == fetched.value.components.keys
    ensures fetched.Some? ==> r[|fetched.value.components.keys|..] == fetched.value.lib.keys
  {
    match fetched
    case None => []
    case Some(reg) => reg.components.keys + reg.lib.keys
  }

  /** For a parsed manifest, the list names exactly the known components. */
  lemma AvailableAreNames(reg: Registry)
    requires reg.components.WellFormed() && reg.lib.WellFormed()
    ensures forall x :: x in AvailableComponents(Some(reg)) <==> x in Names(reg)
    ensures |AvailableComponents(Some(reg))| == |reg.components.entries| + |reg.lib.entries|
  {
    var r := AvailableComponents(Some(reg));
    forall x ensures x in r <==> x in Names(reg) {
      assert x in r <==> x in reg.components.keys || x in reg.lib.keys;
    }
    DistinctKeysCount(reg.components);
    DistinctKeysCount(reg.lib);
  }

  /** A well-formed record lists as many keys as it has entries. */
  lemma DistinctKeysCount(rec: Record)
    requires rec.WellFormed()
    ensures |rec.keys| == |rec.entries|
  {
    var ks := rec.keys;
    DistinctCard(ks);
    assert (set k | k in ks) == rec.entries.Keys;
  }

  lemma {:induction false} DistinctCard(ks: seq<string>)
    requires forall i, j :: 0 <= i < j < |ks| ==> ks[i] != ks[j]
    ensures |set k | k in ks| == |ks|
  {
    if ks != [] {
      var t := ks[1..];
      DistinctCard(t);
      assert (set k | k in ks) == (set k | k in t) + {ks[0]};
      assert ks[0] !in t by {
        forall j | 0 <= j < |t| ensures t[j] != ks[0] { assert t[j] == ks[j + 1]; }
      }
    }
  }
}
