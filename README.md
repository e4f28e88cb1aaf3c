# eprocesso-ds install engine, in Dafny

`eprocesso-ds add <names…>` installs design-system components into a project:

1. It resolves the requested names against the registry manifest. It follows
   each component's `registryDependencies` depth-first, so a component comes
   after everything it depends on.
2. It fetches each resolved component's files.
3. It writes each file that has content to a destination derived from its
   logical path and the project's import aliases. It rewrites the alias tokens
   `@/components` and `@/lib/utils` in the content as it goes.
4. It collects the npm `dependencies` and `devDependencies` of everything
   installed into two insertion-ordered sets.
5. It hands each non-empty set to the package manager chosen from the
   lockfiles present.

This project models that engine and proves properties of the model.

| file | module | models |
|---|---|---|
| `types.dfy` | `Wrappers`, `Types` | `Config`, `ComponentFile`, `ComponentInfo`, `Registry` (`packages/cli/src/types.ts`); a manifest record keeps its key order |
| `text.dfy` | `Text` | the string and path operations the code uses: `startsWith`, first-occurrence and global `replace`, `join`, shell word splitting, `path.dirname` and `path.resolve` on relative paths |
| `registry_client.dfy` | `RegistryClient` | the two-record lookup, `fetchComponent`, `getAvailableComponents` (`packages/cli/src/utils/registry.ts`) |
| `resolver.dfy` | `Resolver` | `resolveDependencies` and its recursive `resolveComponent` closure, as the class `ResolveSession` over the closure's mutable state |
| `project_config.dfy` | `ProjectConfig` | `getPackageManager` and `resolveAlias` (`packages/cli/src/utils/config.ts`) |
| `installer.dfy` | `Installer` | `installComponent`, the install loop, the dependency sets and the package-manager command of `packages/cli/src/commands/add.ts` |

The model keeps no real I/O. It works as follows:

- The manifest is a given `Registry` value.
- File bodies come from a `FileStore` map. A file whose name is not a key has
  a failed fetch and is kept unchanged.
- The working directory is a parameter.
- The set of lockfiles present is a parameter.
- Filesystem effects are returned, in order, as `EnsureDir`/`WriteFile`
  actions.
- Package-manager invocations are returned as the command strings.
- A file whose fetched content is the empty string is skipped like one
  without content, because `!file.content` is true for `""` (`HasContent`).

`resolveComponent` marks a name as resolved only after walking its
dependencies. Once the requests reach a cycle there is no termination
guarantee: the recursion never completes, and the engine's stack limit ends
it.
Every resolver member therefore takes a ghost ranking `rank`, a partial map
from names to numbers with two conditions:

- `Covered`: every known requested name is ranked.
- `Ranked`: every known dependency of a ranked known name is ranked too, and
  strictly lower.

Such a ranking exists exactly when no cycle is reachable from the requests. A
cycle elsewhere in the registry needs no rank and is inside the model
(`UnreachableCycleResolves`). Two definitions describe resolution:

- `VisitSeq` is the walk written as a function of the state. The state is
  `Walk(resolved, order)`.
- `Reach` is an independent definition of the names reachable from the
  requests. It is proved to be the least set that holds the requests and
  follows every dependency edge of its known members.

The class method is proved against `VisitSeq`, and `VisitSeq` is proved
against `Reach`.

## Model

| member | source | states |
|---|---|---|
| Types.OrEmpty | packages/cli/src/utils/registry.ts:90-94 | an optional list read as a list: present gives the list, absent gives the empty list, as the `if (component.registryDependencies)` guard here and `component.devDependencies?.forEach` at add.ts:113 do |
| RegistryClient.Lookup | packages/cli/src/utils/registry.ts:26-30 | a name is found exactly when either record has it; the `components` entry wins over the `lib` entry |
| RegistryClient.FetchFile | packages/cli/src/utils/registry.ts:34-52 | name and path are kept; a file present in the store gets the served body as content; a missing one is kept unchanged |
| RegistryClient.FetchFiles | packages/cli/src/utils/registry.ts:33-54 | one result per file, in order, name and path kept; a fetched file gets the served body as content; a file whose fetch fails is kept unchanged |
| RegistryClient.FetchComponent | packages/cli/src/utils/registry.ts:22-60 | `None` exactly for a name neither record has; otherwise the looked-up entry with only its `files` replaced by the fetched files |
| RegistryClient.AvailableComponents | packages/cli/src/utils/registry.ts:62-72 | a failed manifest fetch gives the empty list; otherwise the keys of `components` in order, followed by the keys of `lib` in order |
| RegistryClient.AvailableAreNames | packages/cli/src/utils/registry.ts:65-68 | for a parsed manifest, a name is listed exactly when the registry knows it, and the list is as long as both records together |
| Resolver.Deps | packages/cli/src/utils/registry.ts:84-94 | the `registryDependencies` of a name's entry, looked up as the walk does; a missing field, or a name the registry lacks, contributes none; `MissingDepsAreNone` states the missing-field case |
| Resolver.Resolve | packages/cli/src/utils/registry.ts:74-110 | `resolveDependencies` as a function: the walk of the requests in order from an empty `resolved` set and an empty order; its properties are proved in `ResolveCorrect`, `ResolvePrefix` and `RequestAgain` |
| Resolver.MissingDepsAreNone | packages/cli/src/utils/registry.ts:90-94 | a component without `registryDependencies` contributes no dependencies to the walk |
| Resolver.ReachLeast | packages/cli/src/utils/registry.ts:89-94 | the reachable names are contained in every set that holds the requests and is closed under dependency edges |
| Resolver.ReachClosed | packages/cli/src/utils/registry.ts:89-94 | the reachable names include every dependency of each known reachable name |
| Resolver.VisitSeqSpec | packages/cli/src/utils/registry.ts:79-103 | from a valid state, the walk succeeds exactly when every reachable name is known; a failure names an unknown reachable name; a success yields a valid state whose order extends the old one and whose resolved set is the old set plus the reachable names |
| Resolver.ResolveCorrect | packages/cli/src/utils/registry.ts:74-111 | resolution fails exactly when a reachable name is unknown, naming such a name; on success each reachable name appears exactly once, nothing else appears, and each name comes after all its dependencies |
| Resolver.UnknownRequestFails | packages/cli/src/utils/registry.ts:84-87 | a requested name the registry does not know makes the whole resolution fail |
| Resolver.ResolvePrefix | packages/cli/src/utils/registry.ts:105-108 | requests are walked in the given order: a failing prefix makes the whole request list fail with the same error, and a successful whole extends the order of each prefix |
| Resolver.RequestAgain | packages/cli/src/utils/registry.ts:80-82 | requesting a name that is already resolved changes nothing |
| Resolver.CardAfterButton | packages/cli/src/utils/registry.ts:89-96 | requesting `card`, which depends on `button`, and then `button` resolves `button` and then `card`, each once |
| Resolver.SelfDependencyUnranked | packages/cli/src/utils/registry.ts:90-96 | a component that depends on itself admits no ranking once it is requested, so a reachable cycle is outside the model |
| Resolver.UnreachableCycleResolves | packages/cli/src/utils/registry.ts:79-108 | a registry with a self-dependent `a` still resolves a request for an unrelated `c`, to `c` alone, because the walk never reaches `a` |
| Resolver.VisitSeq | packages/cli/src/utils/registry.ts:79-103 | the walk as a function of its state: each name in turn is skipped when resolved, fails when unknown, and otherwise has its dependencies walked before it is appended; its properties are proved in `VisitSeqSpec` |
| Resolver.ResolveSession.constructor | packages/cli/src/utils/registry.ts:75-77 | a fresh session: an empty `resolved` set, an empty order and no collected components, over the given manifest and file store |
| Resolver.ResolveSession.ResolveComponent | packages/cli/src/utils/registry.ts:79-103 | the closure's `resolved` set and appended order become exactly what `VisitSeq` gives for that one name; an unknown name is the `NotFound` failure; fetched components stay in step with the order |
| Resolver.ResolveDependencies | packages/cli/src/utils/registry.ts:74-111 | fails with the resolution's error, or returns the fetched entry of each resolved name, in resolution order |
| ProjectConfig.GetPackageManager | packages/cli/src/utils/config.ts:37-48 | pnpm exactly when `pnpm-lock.yaml` exists; yarn exactly when it does not but `yarn.lock` does; npm exactly when neither exists |
| ProjectConfig.AliasPath | packages/cli/src/utils/config.ts:33 | the first `@/`, wherever it occurs, is removed and the text around it is kept; in particular a leading `@/` is stripped; an alias without `@/` is kept as it is |
| ProjectConfig.ResolveAlias | packages/cli/src/utils/config.ts:32-35 | the alias with its first `@/` removed, wherever it occurs, resolved under the working directory; an `@/x` alias resolves to `x`; an alias without `@/` resolves as it is |
| ProjectConfig.ResolveAliasIgnoresConfig | packages/cli/src/utils/config.ts:32-35 | the result never depends on the configuration argument |
| ProjectConfig.ResolveAliasFirstOnly | packages/cli/src/utils/config.ts:33 | only the first `@/` is removed: for all `a` and `b`, `@/a@/b` resolves to `a@/b` under the working directory |
| Text.StartsWith | packages/cli/src/commands/add.ts:151-157 | `String.prototype.startsWith`: the pattern is no longer than the text and is its prefix |
| Text.IndexOf | packages/cli/src/utils/config.ts:33 | the first index at which the pattern occurs, or none when it occurs nowhere |
| Text.ReplaceFirst | packages/cli/src/utils/config.ts:33 | `String.prototype.replace` with a string pattern: the first occurrence, wherever it is, is replaced and the text around it kept; text without the pattern is unchanged |
| Text.ReplaceAll | packages/cli/src/commands/add.ts:174-181 | `replace` with a global pattern: every non-overlapping occurrence, left to right; `ReplaceAllSelf` and `ReplaceAllAbsent` prove that replacing a token by itself, or text without the token, changes nothing |
| Text.Join | packages/cli/src/commands/add.ts:199 | `Array.prototype.join`: the elements with the separator between each two; `WordsJoin` proves that space-free words joined by spaces split back into themselves |
| Text.Dirname | packages/cli/src/commands/add.ts:160-168 | `path.dirname` of a relative path: `.` when the path holds no `/`; otherwise the prefix before the last `/`, with no `/` after it |
| Text.JoinPath | packages/cli/src/commands/add.ts:153-164 | `path.resolve(base, rel)` for a relative `rel`: `rel` under the base, where an empty or `.` base names the base itself; `DirnameJoin` proves that the directory of `d/f` is `d` |
| Text.DirnameJoin | packages/cli/src/commands/add.ts:160 | the directory of `d/f` is `d` when `f` holds no `/` |
| Text.WordsJoin | packages/cli/src/commands/add.ts:199 | non-empty, space-free words joined by spaces split back into the same words |
| Installer.TargetPathRules | packages/cli/src/commands/add.ts:151-165 | a `components/…` path goes under the components alias with the prefix removed; a `lib/…` path goes into the directory of the utils alias with the prefix removed; any other path stays relative to the working directory |
| Installer.TargetPathUnderComponents | packages/cli/src/commands/add.ts:151-156 | `components/rest` with the alias `@/dir` lands at `dir/rest` under the working directory |
| Installer.TargetPathBesideUtils | packages/cli/src/commands/add.ts:157-162 | `lib/rest` with the utils alias `@/dir/file` lands at `dir/rest`, beside the utils entry point |
| Installer.TargetPathLibDefault | packages/cli/src/commands/add.ts:157-162 | under the default utils alias `@/lib/utils`, every `lib/rest` lands at `lib/rest` under the working directory |
| Installer.TargetPath | packages/cli/src/commands/add.ts:148-165 | the destination `installComponent` picks for a logical path; its three rules are proved in `TargetPathRules` |
| Installer.RewriteContent | packages/cli/src/commands/add.ts:171-181 | the two global rewrites, `@/components` first and `@/lib/utils` second; the lemmas below prove what they keep and change |
| Installer.FileActions | packages/cli/src/commands/add.ts:143-184 | installing one file: nothing without content, otherwise the creation of the target's directory followed by the write of the rewritten body; `PlannedActionsSpec` proves this for whole file lists |
| Installer.RewriteDefault | packages/cli/src/commands/add.ts:174-181 | under the default aliases, content is written back unchanged |
| Installer.RewriteUntouched | packages/cli/src/commands/add.ts:174-181 | content holding neither token is unchanged, whatever the aliases |
| Installer.RewriteImportExample | packages/cli/src/commands/add.ts:174-177 | `@/components/y` with the components alias `@/ui` becomes `@/ui/y` |
| Installer.RewriteOrder | packages/cli/src/commands/add.ts:174-181 | the utils pass runs after the components pass and also rewrites the text the components pass inserted |
| Installer.HasContent | packages/cli/src/commands/add.ts:143 | the negation of the `!file.content` test: the content is present and is not the empty string |
| Installer.PlannedActions | packages/cli/src/commands/add.ts:142-185 | what the loop of `installComponent` does: the actions of each file, file by file in listed order; `SkipWithoutContent` and `PlannedActionsSpec` state its properties |
| Installer.SkipWithoutContent | packages/cli/src/commands/add.ts:143-146 | a file without content (missing or empty) causes no action, and the files after it are still installed |
| Installer.PlannedActionsSpec | packages/cli/src/commands/add.ts:141-186 | each write directly follows the creation of its directory; every file with content has its rewritten body written to its target; every write comes from such a file |
| Installer.InstallComponent | packages/cli/src/commands/add.ts:141-186 | the loop performs, in file order, exactly the planned actions of the component's files |
| Installer.InstallPlan | packages/cli/src/commands/add.ts:103-105 | what the install loop does: the planned actions of each component's files, component by component in resolved order; `InstallPlanSplit` states its shape |
| Installer.InstallPlanSplit | packages/cli/src/commands/add.ts:103-105 | components are installed one after another in resolved order: each component's actions sit between those of the components before it and those after it |
| Installer.SetAdd | packages/cli/src/commands/add.ts:112-113 | `Set.prototype.add` on an insertion-ordered set: an element already present leaves the set as it is; a new one goes at the end |
| Installer.Dedup | packages/cli/src/commands/add.ts:108-113 | the `Set` built by adding a list's elements in order to an empty one, as spread at add.ts:118 and add.ts:123; `DedupSpec` states its properties |
| Installer.DedupSpec | packages/cli/src/commands/add.ts:108-113 | an insertion-ordered set holds no repeats and exactly the elements added |
| Installer.AllDependencies | packages/cli/src/commands/add.ts:111-112 | every component's `dependencies` list, component by component in resolved order, as the nested `forEach` adds them; `AllDependenciesMembers` states its members |
| Installer.AllDevDependencies | packages/cli/src/commands/add.ts:111-113 | every component's `devDependencies` list, component by component, a missing list read as empty; `AllDevDependenciesMembers` states its members |
| Installer.AllDependenciesMembers | packages/cli/src/commands/add.ts:108-114 | a package is among the collected dependencies exactly when some component lists it |
| Installer.AllDevDependenciesMembers | packages/cli/src/commands/add.ts:108-114 | a package is among the collected devDependencies exactly when some component lists it, a missing `devDependencies` counting as none |
| Installer.DependencySets | packages/cli/src/commands/add.ts:108-114 | each set holds each package once, and exactly the packages some resolved component lists (a missing `devDependencies` counts as none) |
| Installer.AddEach | packages/cli/src/commands/add.ts:112-113 | `r == Dedup(before + xs)`: the loop adds each element of `xs`, in order, to the set built from `before` |
| Installer.CollectDependencies | packages/cli/src/commands/add.ts:108-114 | the nested `forEach` loops build the two insertion-ordered sets of all listed dependencies and devDependencies |
| Installer.DevFlag | packages/cli/src/commands/add.ts:193 | no flag for regular dependencies; for dev dependencies `--save-dev` under npm and `--dev` under yarn and pnpm; `InstallCommandWords` states what the shell sees |
| Installer.InstallNpmDependencies | packages/cli/src/commands/add.ts:188-206 | the command string: the chosen manager's install command, the dev flag and the dependencies joined by spaces; `InstallCommandWords` proves what the shell sees |
| Installer.InstallCommandWords | packages/cli/src/commands/add.ts:188-206 | the shell sees the manager's install subcommand, then `--save-dev` (npm) or `--dev` (yarn, pnpm) only for dev dependencies, then each dependency in order |
| Installer.NpmCommands | packages/cli/src/commands/add.ts:116-124 | a command for the dependencies only when there are some, then one for the dev dependencies only when there are some |
| Installer.WithoutUtils | packages/cli/src/commands/add.ts:31 | the listed names except `utils`: a name is kept exactly when it is listed and is not `utils`, and the result is no longer than the list |
| Installer.WithoutUtilsKeeps | packages/cli/src/commands/add.ts:31 | a list without `utils` is kept exactly, in order |
| Installer.WithoutUtilsConcat | packages/cli/src/commands/add.ts:31 | filtering distributes over concatenation, so the kept names stay in listed order |
| Installer.AllRequests | packages/cli/src/commands/add.ts:30-31 | `--all` requests the available `components` keys, then the `lib` keys, each in order and without `utils`; a name is requested exactly when the registry knows it and it is not `utils` |
| Installer.AddComponents | packages/cli/src/commands/add.ts:95-124 | a resolution error is reported and nothing is written or run; otherwise the resolved, fetched components are installed in order, and the commands are built from the two dependency sets |

## Left out

- Console output is not modelled: the interactive selection, the
  confirmation prompt, spinners and messages of `addCommand` (add.ts:15-93),
  the per-file warnings for a file without content (add.ts:144) and for a
  failed file fetch (registry.ts:50), which are the only report of a skipped
  file, and the final summary (add.ts:126-132). The chosen names
  enter as the `requests` parameter. Only the `--all` filter is modelled, as
  `WithoutUtils` applied to the available names (`AllRequests`).
- A missing `components.json` (add.ts:17-21) is not modelled. `getConfig`,
  `writeConfig` and the JSON that backs them are file I/O, and the
  configuration is a parameter.
- The HTTP requests of `fetchRegistry` and of the per-file fetch are not
  modelled. The manifest is a value, and the file store is a map in which a
  missing key is a failed fetch. Each `fetchComponent` call re-fetches the
  manifest; the model assumes that every fetch returns the same manifest. This
  makes the `null` branch at registry.ts:100 unreachable. A manifest fetch
  that throws is modelled only in `AvailableComponents`, as `None`.
- `Promise.all` runs the file fetches concurrently. The model fetches them in
  order; only the order of the results matters.
- `execSync` is not modelled: commands are returned, not executed. Their exit
  status and a non-zero exit or throw at add.ts:134-138 are left out.
- A failed `fs.ensureDir` or `fs.writeFile` is not modelled; every effect is
  assumed to succeed.
- Resolver members: a cycle reachable from the requests is not modelled. The
  source recurses on it without bound, so every resolver contract requires a
  ranking that covers the requests and rules such a cycle out. The ranking
  also covers dependencies reached past an unknown name. The source aborts
  there, so a cycle reachable only past an unknown name is excluded too,
  although the source terminates on it.
- Resolver.ResolveSession.ResolveComponent: the session state after a
  failure is left unspecified. The error aborts the whole `add` by
  propagating.
- Text.JoinPath: `path.resolve` is modelled only for relative arguments, without
  normalisation. This excludes absolute aliases, `..`, repeated or trailing
  `/`, and a working directory of `/`. For example `components/` under the
  alias `@/ui` gives `/p/ui/`, where `path.resolve` gives `/p/ui`.
- Text.Dirname: `path.dirname` is modelled for well-formed relative paths
  only. A trailing `/` is not ignored: `Dirname("lib/")` is `lib` where
  `path.dirname` gives `.`, which a utils alias such as `@/lib/` would reach.
- RewriteContent: the `$` patterns of a JavaScript replacement string are
  not modelled. An alias holding `$&`, `$1` and the like is taken literally.
- Text.Words: shell parsing is modelled only as splitting at spaces. Tabs,
  quotes and other shell metacharacters in package names are left out.
- Record: manifest keys are modelled as plain strings. Keys that collide with
  `Object.prototype` members and the integer-like key ordering of
  `Object.keys` are left out; keys keep the order given.
- The `type` tag of a component is carried but never read, as in the
  source.
- `init.ts`, `list.ts`, `index.ts` and `scripts/sync-registry.js` are not
  part of this model.
