/**
 * The install side of `packages/cli/src/commands/add.ts`: `installComponent`
 * (skip files without content, map the logical path to a destination,
 * rewrite the two alias tokens), the install loop over the resolved
 * components, the dependency and devDependency sets, and the command line
 * `installNpmDependencies` hands to the shell.
 *
 * Filesystem effects are recorded, in order, as the `Action`s a call
 * performs rather than carried out; so are the command lines, which are not
 * executed.
 */
module Installer {
  import opened Wrappers
  import opened Types
  import opened Text
  import opened RegistryClient
  import opened Resolver
  import opened ProjectConfig

  const ComponentsDir := "components/"
  const LibDir := "lib/"
  const ComponentsToken := "@/components"
  const UtilsToken := "@/lib/utils"

  /** A recorded filesystem effect: `fs.ensureDir(dir)` or `fs.writeFile(path, content)`. */
  datatype Action = EnsureDir(dir: string) | WriteFile(path: string, content: string)

  /** `file.content` is truthy: present and not the empty string. */
  predicate HasContent(f: ComponentFile) {
    f.content.Some? && f.content.value != ""
  }

  // ---------------------------------------------------------------------------
  // Destination paths.

  /** The destination of a file with logical path `path`. */
  function TargetPath(path: string, aliases: Aliases, cwd: string): string {
    if StartsWith(path, ComponentsDir) then
      JoinPath(cwd, JoinPath(AliasPath(aliases.components), ReplaceFirst(path, ComponentsDir, "")))
    else if StartsWith(path, LibDir) then
      JoinPath(cwd, JoinPath(Dirname(AliasPath(aliases.utils)), ReplaceFirst(path, LibDir, "")))
    else
      JoinPath(cwd, path)
  }

  /**
   * The three mapping rules: `components/` is stripped and the rest placed
   * under the components alias; `lib/` is stripped and the rest placed beside
   * the utils entry point, in the directory of the utils alias; anything else
   * stays relative to the working directory.
   */
  lemma TargetPathRules(path: string, aliases: Aliases, cwd: string)
    ensures StartsWith(path, ComponentsDir) ==>
      TargetPath(path, aliases, cwd) == JoinPath(cwd, JoinPath(AliasPath(aliases.components), path[|ComponentsDir|..]))
    ensures !StartsWith(path, ComponentsDir) && StartsWith(path, LibDir) ==>
      TargetPath(path, aliases, cwd) == JoinPath(cwd, JoinPath(Dirname(AliasPath(aliases.utils)), path[|LibDir|..]))
    ensures !StartsWith(path, ComponentsDir) && !StartsWith(path, LibDir) ==>
      TargetPath(path, aliases, cwd) == JoinPath(cwd, path)
  {
    if StartsWith(path, ComponentsDir) {
      StripPrefix(path, ComponentsDir);
    } else if StartsWith(path, LibDir) {
      StripPrefix(path, LibDir);
    }
  }

  /** A file under `components/` lands under the directory its `@/dir` alias names. */
  lemma TargetPathUnderComponents(rest: string, dir: string, utils: string, cwd: string)
    ensures TargetPath(ComponentsDir + rest, Aliases("@/" + dir, utils), cwd) == JoinPath(cwd, JoinPath(dir, rest))
  {
    var p := ComponentsDir + rest;
    StartsWithConcat(ComponentsDir, rest);
    StartsWithConcat("@/", dir);
    TargetPathRules(p, Aliases("@/" + dir, utils), cwd);
    assert p[|ComponentsDir|..] == rest;
    assert ("@/" + dir)[2..] == dir;
  }

  /** A file under `lib/` lands beside the utils entry point of an `@/dir/file` alias. */
  lemma TargetPathBesideUtils(rest: string, components: string, dir: string, file: string, cwd: string)
    requires dir != "" && dir != "." && '/' !in file
    ensures TargetPath(LibDir + rest, Aliases(components, "@/" + dir + "/" + file), cwd) == JoinPath(cwd, JoinPath(dir, rest))
  {
    var p := LibDir + rest;
    var utils := "@/" + dir + "/" + file;
    StartsWithConcat(LibDir, rest);
    assert !StartsWith(p, ComponentsDir) by {
      if |ComponentsDir| <= |p| {
        assert p[..|ComponentsDir|][0] == 'l';
      }
    }
    assert utils == "@/" + (dir + "/" + file);
    StartsWithConcat("@/", dir + "/" + file);
    TargetPathRules(p, Aliases(components, utils), cwd);
    assert utils[2..] == dir + "/" + file;
    DirnameJoin(dir, file);
    assert p[|LibDir|..] == rest;
  }

  /** Under the default utils alias `@/lib/utils`, a file under `lib/` lands under `lib/` again. */
  lemma TargetPathLibDefault(rest: string, components: string, cwd: string)
    ensures TargetPath(LibDir + rest, Aliases(components, DefaultAliases.utils), cwd) == JoinPath(cwd, "lib/" + rest)
  {
    assert DefaultAliases.utils == "@/" + "lib" + "/" + "utils";
    TargetPathBesideUtils(rest, components, "lib", "utils", cwd);
    assert JoinPath("lib", rest) == "lib/" + rest;
  }

  // ---------------------------------------------------------------------------
  // Content rewrite.

  /** Every `@/components`, then every `@/lib/utils`, replaced by the configured alias. */
  function RewriteContent(content: string, aliases: Aliases): string {
    ReplaceAll(ReplaceAll(content, ComponentsToken, aliases.components), UtilsToken, aliases.utils)
  }

  /** With the aliases `init` writes by default, content is installed unchanged. */
  lemma RewriteDefault(content: string)
    ensures RewriteContent(content, DefaultAliases) == content
  {
    ReplaceAllSelf(content, ComponentsToken);
    ReplaceAllSelf(content, UtilsToken);
  }

  /** Content that holds neither token is installed unchanged, whatever the aliases. */
  lemma RewriteUntouched(content: string, aliases: Aliases)
    requires forall j: nat :: !OccursAt(content, ComponentsToken, j)
    requires forall j: nat :: !OccursAt(content, UtilsToken, j)
    ensures RewriteContent(content, aliases) == content
  {
    ReplaceAllAbsent(content, ComponentsToken, aliases.components);
    ReplaceAllAbsent(content, UtilsToken, aliases.utils);
  }

  /** An import of `@/components/...` is redirected to the components alias. */
  lemma RewriteImportExample()
    ensures RewriteContent("@/components/y", Aliases("@/ui", "@/lib/utils")) == "@/ui/y"
  {
    ReplaceAllLeading(ComponentsToken, "@/ui", "/y");
    assert ReplaceAll("/y", ComponentsToken, "@/ui") == "/y";
    assert ReplaceAll("@/ui/y", UtilsToken, "@/lib/utils") == "@/ui/y";
  }

  /**
   * The two passes run in order, so a components alias that itself holds
   * `@/lib/utils` is rewritten again by the second pass.
   */
  lemma RewriteOrder()
    ensures RewriteContent("@/components", Aliases("@/lib/utils", "@/shared")) == "@/shared"
  {
    ReplaceAllLeading(ComponentsToken, "@/lib/utils", "");
    ReplaceAllLeading(UtilsToken, "@/shared", "");
    assert ComponentsToken + "" == ComponentsToken;
    assert UtilsToken + "" == UtilsToken;
  }

  // ---------------------------------------------------------------------------
  // installComponent.

  /** What installing one file does: nothing without content, else create its directory and write it. */
  function FileActions(f: ComponentFile, aliases: Aliases, cwd: string): seq<Action> {
    if !HasContent(f) then []
    else
      var target := TargetPath(f.path, aliases, cwd);
      [EnsureDir(Dirname(target)), WriteFile(target, RewriteContent(f.content.value, aliases))]
  }

  /** What installing a list of files does, file by file in listed order. */
  function PlannedActions(files: seq<ComponentFile>, aliases: Aliases, cwd: string): seq<Action> {
    if files == [] then []
    else PlannedActions(files[..|files| - 1], aliases, cwd) + FileActions(files[|files| - 1], aliases, cwd)
  }

  lemma {:induction false} PlannedActionsConcat(a: seq<ComponentFile>, b: seq<ComponentFile>, aliases: Aliases, cwd: string)
    ensures PlannedActions(a + b, aliases, cwd) == PlannedActions(a, aliases, cwd) + PlannedActions(b, aliases, cwd)
    decreases |b|
  {
    if b == [] {
      assert a + b == a;
    } else {
      var b' := b[..|b| - 1];
      assert (a + b)[..|a + b| - 1] == a + b';
      PlannedActionsConcat(a, b', aliases, cwd);
    }
  }

  /** A file without content is skipped: nothing is done for it, and the files after it are still installed. */
  lemma SkipWithoutContent(a: seq<ComponentFile>, f: ComponentFile, b: seq<ComponentFile>, aliases: Aliases, cwd: string)
    requires !HasContent(f)
    ensures PlannedActions(a + [f] + b, aliases, cwd) == PlannedActions(a, aliases, cwd) + PlannedActions(b, aliases, cwd)
  {
    PlannedActionsConcat(a + [f], b, aliases, cwd);
    PlannedActionsConcat(a, [f], aliases, cwd);
    PlannedActionsSingle(f, aliases, cwd);
  }

  lemma PlannedActionsSingle(f: ComponentFile, aliases: Aliases, cwd: string)
    ensures PlannedActions([f], aliases, cwd) == FileActions(f, aliases, cwd)
  {
    assert [f][..0] == [];
  }

  /** Every write is immediately preceded by the creation of its directory. */
  ghost predicate DirBeforeWrite(actions: seq<Action>) {
    forall i :: 0 <= i < |actions| && actions[i].WriteFile? ==>
      i > 0 && actions[i - 1] == EnsureDir(Dirname(actions[i].path))
  }

  /**
   * The actions for a file list: each write is preceded by its directory;
   * a file has its rewritten content written to its target exactly when it
   * has content; and every write comes from such a file.
   */
  lemma {:induction false} PlannedActionsSpec(files: seq<ComponentFile>, aliases: Aliases, cwd: string)
    ensures DirBeforeWrite(PlannedActions(files, aliases, cwd))
    ensures forall f :: f in files && HasContent(f) ==>
      WriteFile(TargetPath(f.path, aliases, cwd), RewriteContent(f.content.value, aliases)) in PlannedActions(files, aliases, cwd)
    ensures forall a :: a in PlannedActions(files, aliases, cwd) && a.WriteFile? ==>
      exists f :: f in files && HasContent(f) && a == WriteFile(TargetPath(f.path, aliases, cwd), RewriteContent(f.content.value, aliases))
  {
    if files != [] {
      var init, last := files[..|files| - 1], files[|files| - 1];
      PlannedActionsSpec(init, aliases, cwd);
      var p, q := PlannedActions(init, aliases, cwd), FileActions(last, aliases, cwd);
      var all := p + q;
      assert all == PlannedActions(files, aliases, cwd);
      forall i | 0 <= i < |all| && all[i].WriteFile? ensures i > 0 && all[i - 1] == EnsureDir(Dirname(all[i].path)) {
        if i < |p| {
          assert all[i] == p[i] && all[i - 1] == p[i - 1];
        }
      }
      assert files == init + [last];
      forall f | f in files && HasContent(f)
        ensures WriteFile(TargetPath(f.path, aliases, cwd), RewriteContent(f.content.value, aliases)) in all
      {
        if f != last {
          assert f in init;
        } else {
          assert q[1] == WriteFile(TargetPath(f.path, aliases, cwd), RewriteContent(f.content.value, aliases));
        }
      }
      forall a | a in all && a.WriteFile?
        ensures exists f :: f in files && HasContent(f) && a == WriteFile(TargetPath(f.path, aliases, cwd), RewriteContent(f.content.value, aliases))
      {
        if a in p {
          var f :| f in init && HasContent(f) && a == WriteFile(TargetPath(f.path, aliases, cwd), RewriteContent(f.content.value, aliases));
          assert f in files;
        } else {
          assert a in q;
          assert last in files;
        }
      }
    }
  }

  lemma PlannedActionsPrefix(files: seq<ComponentFile>, i: nat, aliases: Aliases, cwd: string)
    requires i < |files|
    ensures PlannedActions(files[..i + 1], aliases, cwd) == PlannedActions(files[..i], aliases, cwd) + FileActions(files[i], aliases, cwd)
  {
    assert files[..i + 1][..i] == files[..i];
  }

  /** `installComponent(component, config)`: the actions it performs, in order. */
  method InstallComponent(component: ComponentInfo, config: Config, cwd: string) returns (actions: seq<Action>)
    ensures actions == PlannedActions(component.files, config.aliases, cwd)
  {
    actions := [];
    for i := 0 to |component.files|
      invariant actions == PlannedActions(component.files[..i], config.aliases, cwd)
    {
      PlannedActionsPrefix(component.files, i, config.aliases, cwd);
      var file := component.files[i];
      if file.content.None? || file.content.value == "" {
        continue;
      }

      // The three-way choice of `targetPath`, specified by `TargetPath`.
      var targetPath: string;
      if StartsWith(file.path, ComponentsDir) {
        var relativePath := ReplaceFirst(file.path, ComponentsDir, "");
        targetPath := JoinPath(cwd, JoinPath(AliasPath(config.aliases.components), relativePath));
      } else if StartsWith(file.path, LibDir) {
        var relativePath := ReplaceFirst(file.path, LibDir, "");
        targetPath := JoinPath(cwd, JoinPath(Dirname(AliasPath(config.aliases.utils)), relativePath));
      } else {
        targetPath := JoinPath(cwd, file.path);
      }

      assert targetPath == TargetPath(file.path, config.aliases, cwd);
      actions := actions + [EnsureDir(Dirname(targetPath))];

      var processedContent := file.content.value;
      processedContent := ReplaceAll(processedContent, ComponentsToken, config.aliases.components);
      processedContent := ReplaceAll(processedContent, UtilsToken, config.aliases.utils);
      assert processedContent == RewriteContent(file.content.value, config.aliases);

      actions := actions + [WriteFile(targetPath, processedContent)];
    }
    assert component.files[..|component.files|] == component.files;
  }

  // ---------------------------------------------------------------------------
  // The install loop of addCommand.

  /** What installing the components in the given order does. */
  function InstallPlan(cs: seq<ComponentInfo>, aliases: Aliases, cwd: string): seq<Action> {
    if cs == [] then []
    else InstallPlan(cs[..|cs| - 1], aliases, cwd) + PlannedActions(cs[|cs| - 1].files, aliases, cwd)
  }

  lemma {:induction false} InstallPlanConcat(a: seq<ComponentInfo>, b: seq<ComponentInfo>, aliases: Aliases, cwd: string)
    ensures InstallPlan(a + b, aliases, cwd) == InstallPlan(a, aliases, cwd) + InstallPlan(b, aliases, cwd)
    decreases |b|
  {
    if b == [] {
      assert a + b == a;
    } else {
      var b' := b[..|b| - 1];
      assert (a + b)[..|a + b| - 1] == a + b';
      InstallPlanConcat(a, b', aliases, cwd);
    }
  }

  lemma InstallPlanPrefix(cs: seq<ComponentInfo>, i: nat, aliases: Aliases, cwd: string)
    requires i < |cs|
    ensures InstallPlan(cs[..i + 1], aliases, cwd) == InstallPlan(cs[..i], aliases, cwd) + PlannedActions(cs[i].files, aliases, cwd)
  {
    assert cs[..i + 1][..i] == cs[..i];
  }

  /** Components are installed one after another, in resolved order. */
  lemma InstallPlanSplit(cs: seq<ComponentInfo>, i: nat, aliases: Aliases, cwd: string)
    requires i < |cs|
    ensures InstallPlan(cs, aliases, cwd) ==
      InstallPlan(cs[..i], aliases, cwd) + PlannedActions(cs[i].files, aliases, cwd) + InstallPlan(cs[i + 1..], aliases, cwd)
  {
    assert cs == cs[..i] + [cs[i]] + cs[i + 1..];
    InstallPlanConcat(cs[..i] + [cs[i]], cs[i + 1..], aliases, cwd);
    InstallPlanConcat(cs[..i], [cs[i]], aliases, cwd);
    assert [cs[i]][..0] == [];
  }

  // ---------------------------------------------------------------------------
  // Dependency sets. A JavaScript `Set` enumerates in insertion order, so it is
  // modelled as a list without repeats that `add` extends at the end.

  function SetAdd(s: seq<string>, x: string): seq<string> {
    if x in s then s else s + [x]
  }

  /** The `Set` obtained by adding `xs` in order to an empty one. */
  function Dedup(xs: seq<string>): seq<string> {
    if xs == [] then []
    else SetAdd(Dedup(xs[..|xs| - 1]), xs[|xs| - 1])
  }

  lemma {:induction false} DedupSpec(xs: seq<string>)
    ensures NoDuplicates(Dedup(xs))
    ensures forall x :: x in Dedup(xs) <==> x in xs
  {
    if xs != [] {
      var init := xs[..|xs| - 1];
      DedupSpec(init);
      assert xs == init + [xs[|xs| - 1]];
    }
  }

  lemma DedupSnoc(xs: seq<string>, x: string)
    ensures Dedup(xs + [x]) == SetAdd(Dedup(xs), x)
  {
    assert (xs + [x])[..|xs|] == xs;
  }

  /** Every `dependencies` list, in order. */
  function AllDependencies(cs: seq<ComponentInfo>): seq<string> {
    if cs == [] then [] else AllDependencies(cs[..|cs| - 1]) + cs[|cs| - 1].dependencies
  }

  /** Every `devDependencies` list, in order; a missing one counts as empty. */
  function AllDevDependencies(cs: seq<ComponentInfo>): seq<string> {
    if cs == [] then [] else AllDevDependencies(cs[..|cs| - 1]) + OrEmpty(cs[|cs| - 1].devDependencies)
  }

  lemma {:induction false} AllDependenciesMembers(cs: seq<ComponentInfo>)
    ensures forall x :: x in AllDependencies(cs) <==> exists i :: 0 <= i < |cs| && x in cs[i].dependencies
  {
    if cs != [] {
      var init, last := cs[..|cs| - 1], cs[|cs| - 1];
      AllDependenciesMembers(init);
      assert AllDependencies(cs) == AllDependencies(init) + last.dependencies;
      forall x ensures x in AllDependencies(cs) <==> exists i :: 0 <= i < |cs| && x in cs[i].dependencies {
        if x in AllDependencies(init) {
          var i :| 0 <= i < |init| && x in init[i].dependencies;
          assert cs[i] == init[i];
        }
        if exists i :: 0 <= i < |cs| && x in cs[i].dependencies {
          var i :| 0 <= i < |cs| && x in cs[i].dependencies;
          if i < |init| { assert init[i] == cs[i]; }
        }
      }
    }
  }

  lemma {:induction false} AllDevDependenciesMembers(cs: seq<ComponentInfo>)
    ensures forall x :: x in AllDevDependencies(cs) <==> exists i :: 0 <= i < |cs| && x in OrEmpty(cs[i].devDependencies)
  {
    if cs != [] {
      var init, last := cs[..|cs| - 1], cs[|cs| - 1];
      AllDevDependenciesMembers(init);
      assert AllDevDependencies(cs) == AllDevDependencies(init) + OrEmpty(last.devDependencies);
      forall x ensures x in AllDevDependencies(cs) <==> exists i :: 0 <= i < |cs| && x in OrEmpty(cs[i].devDependencies) {
        if x in AllDevDependencies(init) {
          var i :| 0 <= i < |init| && x in OrEmpty(init[i].devDependencies);
          assert cs[i] == init[i];
        }
        if exists i :: 0 <= i < |cs| && x in OrEmpty(cs[i].devDependencies) {
          var i :| 0 <= i < |cs| && x in OrEmpty(cs[i].devDependencies);
          if i < |init| { assert init[i] == cs[i]; }
        }
      }
    }
  }

  /**
   * The two sets of addCommand hold each package once, and exactly the
   * packages some resolved component lists.
   */
  lemma DependencySets(cs: seq<ComponentInfo>)
    ensures NoDuplicates(Dedup(AllDependencies(cs))) && NoDuplicates(Dedup(AllDevDependencies(cs)))
    ensures forall x :: x in Dedup(AllDependencies(cs)) <==> exists i :: 0 <= i < |cs| && x in cs[i].dependencies
    ensures forall x :: x in Dedup(AllDevDependencies(cs)) <==> exists i :: 0 <= i < |cs| && x in OrEmpty(cs[i].devDependencies)
  {
    DedupSpec(AllDependencies(cs));
    DedupSpec(AllDevDependencies(cs));
    AllDependenciesMembers(cs);
    AllDevDependenciesMembers(cs);
  }

  /** `xs.forEach(x => set.add(x))` on the set `acc` built from `before`. */
  method AddEach(acc: seq<string>, ghost before: seq<string>, xs: seq<string>) returns (r: seq<string>)
    requires acc == Dedup(before)
    ensures r == Dedup(before + xs)
  {
    r := acc;
    assert before + xs[..0] == before;
    for j := 0 to |xs|
      invariant r == Dedup(before + xs[..j])
    {
      assert before + xs[..j + 1] == (before + xs[..j]) + [xs[j]];
      DedupSnoc(before + xs[..j], xs[j]);
      r := SetAdd(r, xs[j]);
    }
    assert xs[..|xs|] == xs;
  }

  lemma AllDependenciesPrefix(cs: seq<ComponentInfo>, i: nat)
    requires i < |cs|
    ensures AllDependencies(cs[..i + 1]) == AllDependencies(cs[..i]) + cs[i].dependencies
    ensures AllDevDependencies(cs[..i + 1]) == AllDevDependencies(cs[..i]) + OrEmpty(cs[i].devDependencies)
  {
    assert cs[..i + 1][..i] == cs[..i];
  }

  /** The `forEach` that fills `allDependencies` and `allDevDependencies`. */
  method CollectDependencies(cs: seq<ComponentInfo>) returns (deps: seq<string>, devDeps: seq<string>)
    ensures deps == Dedup(AllDependencies(cs))
    ensures devDeps == Dedup(AllDevDependencies(cs))
  {
    deps, devDeps := [], [];
    for i := 0 to |cs|
      invariant deps == Dedup(AllDependencies(cs[..i]))
      invariant devDeps == Dedup(AllDevDependencies(cs[..i]))
    {
      var c := cs[i];
      AllDependenciesPrefix(cs, i);
      deps := AddEach(deps, AllDependencies(cs[..i]), c.dependencies);
      if c.devDependencies.Some? {
        devDeps := AddEach(devDeps, AllDevDependencies(cs[..i]), c.devDependencies.value);
      } else {
        assert AllDevDependencies(cs[..i]) + [] == AllDevDependencies(cs[..i]);
      }
    }
    assert cs[..|cs|] == cs;
  }

  // ---------------------------------------------------------------------------
  // installNpmDependencies: the command line.

  function DevFlag(pm: PackageManager, isDev: bool): string {
    if isDev then (if pm == Npm then "--save-dev" else "--dev") else ""
  }

  /** The words that name the package manager's install subcommand. */
  function Prefix(pm: PackageManager): seq<string> {
    match pm
    case Pnpm => ["pnpm", "add"]
    case Yarn => ["yarn", "add"]
    case Npm => ["npm", "install"]
  }

  /** The command string `installNpmDependencies(dependencies, isDev)` runs. */
  function InstallNpmDependencies(dependencies: seq<string>, isDev: bool, existing: set<string>): string {
    var packageManager := GetPackageManager(existing);
    var devFlag := DevFlag(packageManager, isDev);
    match packageManager
    case Pnpm => "pnpm add " + devFlag + " " + Join(dependencies, " ")
    case Yarn => "yarn add " + devFlag + " " + Join(dependencies, " ")
    case Npm => "npm install " + devFlag + " " + Join(dependencies, " ")
  }

  lemma WordsOfWord(w: string)
    requires w != "" && ' ' !in w
    ensures Words(w) == [w]
  {
    SplitWord(w, ' ');
    assert Words(w) == NonEmpty([w]);
    assert [w][1..] == [];
    assert NonEmpty([w]) == [w] + NonEmpty([]);
  }

  lemma CommandWords(tool: string, sub: string, flag: string, dependencies: seq<string>)
    requires tool != "" && ' ' !in tool && sub != "" && ' ' !in sub && ' ' !in flag
    requires forall i :: 0 <= i < |dependencies| ==> dependencies[i] != "" && ' ' !in dependencies[i]
    ensures Words(tool + " " + sub + " " + flag + " " + Join(dependencies, " ")) ==
      [tool, sub] + (if flag == "" then [] else [flag]) + dependencies
  {
    var joined := Join(dependencies, " ");
    var head := tool + " " + sub;
    var front := head + " " + flag;
    WordsConcat(tool, sub);
    WordsOfWord(tool);
    WordsOfWord(sub);
    assert Words(head) == [tool, sub];
    WordsConcat(head, flag);
    var flagWords := if flag == "" then [] else [flag];
    if flag != "" {
      WordsOfWord(flag);
    } else {
      assert Split(flag, ' ') == [""];
    }
    assert Words(front) == [tool, sub] + flagWords;
    WordsConcat(front, joined);
    WordsJoin(dependencies);
    assert Words(front + " " + joined) == [tool, sub] + flagWords + dependencies;
  }

  /**
   * The words the shell sees in the command: the manager's install
   * subcommand, its dev flag only for dev dependencies (`--save-dev` for
   * npm, `--dev` otherwise), then each dependency in order.
   */
  lemma InstallCommandWords(dependencies: seq<string>, isDev: bool, existing: set<string>)
    requires forall i :: 0 <= i < |dependencies| ==> dependencies[i] != "" && ' ' !in dependencies[i]
    ensures var pm := GetPackageManager(existing);
      Words(InstallNpmDependencies(dependencies, isDev, existing)) ==
        Prefix(pm) + (if isDev then [if pm == Npm then "--save-dev" else "--dev"] else []) + dependencies
  {
    var pm := GetPackageManager(existing);
    var flag := DevFlag(pm, isDev);
    var joined := Join(dependencies, " ");
    assert ' ' !in flag;
    match pm
    case Pnpm =>
      assert "pnpm add " + flag + " " + joined == "pnpm" + " " + "add" + " " + flag + " " + joined;
      CommandWords("pnpm", "add", flag, dependencies);
    case Yarn =>
      assert "yarn add " + flag + " " + joined == "yarn" + " " + "add" + " " + flag + " " + joined;
      CommandWords("yarn", "add", flag, dependencies);
    case Npm =>
      assert "npm install " + flag + " " + joined == "npm" + " " + "install" + " " + flag + " " + joined;
      CommandWords("npm", "install", flag, dependencies);
  }

  /** Each set is handed to the package manager only when it is not empty. */
  function NpmCommands(deps: seq<string>, devDeps: seq<string>, existing: set<string>): (r: seq<string>)
    ensures |r| == (if |deps| > 0 then 1 else 0) + (if |devDeps| > 0 then 1 else 0)
    ensures |deps| > 0 ==> r[0] == InstallNpmDependencies(deps, false, existing)
    ensures |devDeps| > 0 ==> r[|r| - 1] == InstallNpmDependencies(devDeps, true, existing)
  {
    (if |deps| > 0 then [InstallNpmDependencies(deps, false, existing)] else [])
    + (if |devDeps| > 0 then [InstallNpmDependencies(devDeps, true, existing)] else [])
  }

  // ---------------------------------------------------------------------------
  // addCommand, without its prompts and console output.

  /** `--all`: every available name except `utils`, which `init` installs, in listed order. */
  function WithoutUtils(names: seq<string>): (r: seq<string>)
    ensures forall x :: x in r <==> x in names && x != "utils"
    ensures |r| <= |names|
  {
    if names == [] then []
    else (if names[0] == "utils" then [] else [names[0]]) + WithoutUtils(names[1..])
  }

  /** A list without `utils` passes the filter unchanged, in the same order. */
  lemma {:induction false} WithoutUtilsKeeps(names: seq<string>)
    requires "utils" !in names
    ensures WithoutUtils(names) == names
  {
    if names != [] {
      assert names[0] != "utils";
      WithoutUtilsKeeps(names[1..]);
      assert names == [names[0]] + names[1..];
    }
  }

  lemma WithoutUtilsCons(x: string, rest: seq<string>)
    ensures WithoutUtils([x] + rest) == (if x == "utils" then [] else [x]) + WithoutUtils(rest)
  {
    assert ([x] + rest)[0] == x && ([x] + rest)[1..] == rest;
  }

  /** The filter works piecewise, so the names it keeps stay in their order. */
  lemma {:induction false} WithoutUtilsConcat(a: seq<string>, b: seq<string>)
    ensures WithoutUtils(a + b) == WithoutUtils(a) + WithoutUtils(b)
  {
    if a == [] {
      assert a + b == b;
    } else {
      var x, t := a[0], a[1..];
      var head := if x == "utils" then [] else [x];
      assert a == [x] + t;
      assert a + b == [x] + (t + b);
      WithoutUtilsCons(x, t + b);
      WithoutUtilsCons(x, t);
      WithoutUtilsConcat(t, b);
      assert head + (WithoutUtils(t) + WithoutUtils(b)) == (head + WithoutUtils(t)) + WithoutUtils(b);
    }
  }

  /**
   * With `--all`, the requests are the registry's `components` keys and then
   * its `lib` keys, in order, without `utils`: exactly the known names other
   * than `utils`.
   */
  lemma AllRequests(reg: Registry)
    requires reg.components.WellFormed() && reg.lib.WellFormed()
    ensures WithoutUtils(AvailableComponents(Some(reg))) ==
      WithoutUtils(reg.components.keys) + WithoutUtils(reg.lib.keys)
    ensures forall x :: x in WithoutUtils(AvailableComponents(Some(reg))) <==> x in Names(reg) && x != "utils"
  {
    WithoutUtilsConcat(reg.components.keys, reg.lib.keys);
    AvailableAreNames(reg);
  }

  datatype AddReport = AddReport(
    error: Option<ResolveError>,
    installed: seq<ComponentInfo>,
    actions: seq<Action>,
    commands: seq<string>)

  /**
   * The body of `addCommand` once the requests are known: resolve, install
   * each resolved component in order, then collect the dependency sets and
   * build the package-manager commands. A resolution error is reported
   * before anything is written or run.
   */
  method AddComponents(registry: Registry, store: FileStore, requests: seq<string>, config: Config,
                       cwd: string, existing: set<string>, ghost rank: map<string, nat>)
    returns (report: AddReport)
    requires Ranked(registry, rank) && Covered(registry, rank, requests)
    ensures report.error.Some? <==> Resolve(registry, rank, requests).Failure?
    ensures report.error.Some? ==>
      && report.error.value == Resolve(registry, rank, requests).error
      && report.installed == [] && report.actions == [] && report.commands == []
    ensures report.error.None? ==>
      && Materialized(registry, store, Resolve(registry, rank, requests).value.order, report.installed)
      && report.actions == InstallPlan(report.installed, config.aliases, cwd)
      && report.commands == NpmCommands(Dedup(AllDependencies(report.installed)), Dedup(AllDevDependencies(report.installed)), existing)
  {
    var resolved := ResolveDependencies(registry, store, requests, rank);
    if resolved.Failure? {
      return AddReport(Some(resolved.error), [], [], []);
    }
    var components := resolved.value;

    var actions := [];
    for i := 0 to |components|
      invariant actions == InstallPlan(components[..i], config.aliases, cwd)
    {
      InstallPlanPrefix(components, i, config.aliases, cwd);
      var done := InstallComponent(components[i], config, cwd);
      actions := actions + done;
    }
    assert components[..|components|] == components;

    var allDependencies, allDevDependencies := CollectDependencies(components);
    var commands := [];
    if |allDependencies| > 0 {
      commands := commands + [InstallNpmDependencies(allDependencies, false, existing)];
    }
    if |allDevDependencies| > 0 {
      commands := commands + [InstallNpmDependencies(allDevDependencies, true, existing)];
    }
    report := AddReport(None, components, actions, commands);
  }
}
