/**
 * The pure parts of `packages/cli/src/utils/config.ts`: choosing the package
 * manager from the lockfiles present in the project, and resolving an import
 * alias to a directory. The set of files that exist in the working directory
 * and the working directory itself are parameters.
 */
module ProjectConfig {
  import opened Types
  import opened Text

  datatype PackageManager = Npm | Yarn | Pnpm

  const PnpmLock := "pnpm-lock.yaml"
  const YarnLock := "yarn.lock"

  /** `getPackageManager`: a pnpm lockfile first, then a yarn lockfile, else npm. */
  function GetPackageManager(existing: set<string>): (pm: PackageManager)
    ensures pm == Pnpm <==> PnpmLock in existing
    ensures pm == Yarn <==> PnpmLock !in existing && YarnLock in existing
    ensures pm == Npm <==> PnpmLock !in existing && YarnLock !in existing
  {
    if PnpmLock in existing then Pnpm
    else if YarnLock in existing then Yarn
    else Npm
  }

  /** An alias with its first `@/` removed, wherever it occurs. */
  function AliasPath(alias: string): (r: string)
    ensures forall i: nat :: FirstAt(alias, "@/", i) ==> r == alias[..i] + alias[i + 2..]
    ensures StartsWith(alias, "@/") ==> r == alias[2..]
    ensures (forall j: nat :: !OccursAt(alias, "@/", j)) ==> r == alias
  {
    assert StartsWith(alias, "@/") ==> FirstAt(alias, "@/", 0);
    ReplaceFirst(alias, "@/", "")
  }

  /**
   * `resolveAlias(alias, config)`: the alias without its first `@/`,
   * resolved against the working directory. The configuration is not read.
   */
  function ResolveAlias(alias: string, config: Config, cwd: string): (r: string)
    ensures forall i: nat :: FirstAt(alias, "@/", i) ==> r == JoinPath(cwd, alias[..i] + alias[i + 2..])
    ensures StartsWith(alias, "@/") ==> r == JoinPath(cwd, alias[2..])
    ensures (forall j: nat :: !OccursAt(alias, "@/", j)) ==> r == JoinPath(cwd, alias)
  {
    JoinPath(cwd, AliasPath(alias))
  }

  /** The configuration argument is never consulted. */
  lemma ResolveAliasIgnoresConfig(alias: string, c1: Config, c2: Config, cwd: string)
    ensures ResolveAlias(alias, c1, cwd) == ResolveAlias(alias, c2, cwd)
  {
  }

  /** Only the first `@/` goes: a second one stays in the result. */
  lemma ResolveAliasFirstOnly(a: string, b: string, config: Config, cwd: string)
    ensures ResolveAlias("@/" + a + "@/" + b, config, cwd) == JoinPath(cwd, a + "@/" + b)
  {
    var rest := a + "@/" + b;
    assert "@/" + a + "@/" + b == "@/" + rest;
    StartsWithConcat("@/", rest);
    assert ("@/" + rest)[2..] == rest;
  }
}
