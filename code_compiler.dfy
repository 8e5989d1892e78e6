/**
 * The compiler front end (src/RoslynCodeCompiler/CodeCompiler.cs): the top-level-statement
 * gate, the default references, the NuGet reference collection and the filter that picks
 * the diagnostics reported when emitting fails.
 *
 * Roslyn's parser and emitter, the NuGet resolver and the file system are inputs: the
 * syntax tree is the sequence of its node kinds, emitting is a function of the reference
 * list, the resolver is a function of the root id and the discovered set, and the file
 * system is its state once the packages are extracted.
 */
module CodeCompiler {
  import opened Wrappers
  import opened Text
  import opened Packages
  import opened Discovery
  import opened CompilationFailure

  /** A file-system path as the sequence of its segments; `Path.Combine` appends. */
  type Path = seq<string>

  /** `MetadataReference.CreateFromFile(path)`. */
  datatype MetadataReference = MetadataReference(path: Path)

  /** The references to a sequence of files, in order. */
  function ReferencesTo(paths: seq<Path>): (r: seq<MetadataReference>)
    ensures |r| == |paths|
    ensures forall i :: 0 <= i < |paths| ==> r[i] == MetadataReference(paths[i])
  {
    seq(|paths|, i requires 0 <= i < |paths| => MetadataReference(paths[i]))
  }

  /** Referencing files one group after another references them all, in order. */
  lemma ReferencesToAppend(a: seq<Path>, b: seq<Path>)
    ensures ReferencesTo(a + b) == ReferencesTo(a) + ReferencesTo(b)
  {
    assert forall i :: 0 <= i < |a + b| ==> ReferencesTo(a + b)[i] == (ReferencesTo(a) + ReferencesTo(b))[i];
  }

  // ---------------------------------------------------------------------------
  // The reference list
  // ---------------------------------------------------------------------------

  /** The `List<MetadataReference>` the compiler fills. */
  class ReferenceList {
    var items: seq<MetadataReference>

    constructor ()
      ensures items == []
    {
      items := [];
    }

    method Add(reference: MetadataReference)
      modifies this
      ensures items == old(items) + [reference]
    {
      items := items + [reference];
    }

    method AddRange(references: seq<MetadataReference>)
      modifies this
      ensures items == old(items) + references
    {
      items := items + references;
    }
  }

  // ---------------------------------------------------------------------------
  // Default references
  // ---------------------------------------------------------------------------

  /** A loaded assembly: its simple name and its location. */
  datatype Assembly = Assembly(name: string, location: Path)

  /** The host runtime: where the assemblies of `object`, `Console`, `GCSettings` and
      `Enumerable` live, and the assemblies loaded in the application domain, in order. */
  datatype Runtime = Runtime(
    objectAssembly: Path,
    consoleAssembly: Path,
    gcSettingsAssembly: Path,
    enumerableAssembly: Path,
    loaded: seq<Assembly>)

  /** `FirstOrDefault(a => a.GetName().Name == name)`. */
  function FirstNamed(assemblies: seq<Assembly>, name: string): (r: Option<Assembly>)
    ensures r.Some? ==> r.value.name == name
    ensures r.Some? ==> exists i :: (0 <= i < |assemblies| && assemblies[i] == r.value
                                     && forall j :: 0 <= j < i ==> assemblies[j].name != name)
    ensures r.None? <==> forall i :: 0 <= i < |assemblies| ==> assemblies[i].name != name
  {
    if assemblies == [] then None
    else if assemblies[0].name == name then Some(assemblies[0])
    else
      var r := FirstNamed(assemblies[1..], name);
      if r.Some? then
        ghost var i :| 0 <= i < |assemblies[1..]| && assemblies[1..][i] == r.value
          && forall j :: 0 <= j < i ==> assemblies[1..][j].name != name;
        assert assemblies[i + 1] == r.value;
        r
      else r
  }

  /** `GetDefaultReferences()`: the four framework assemblies in order, then the first
      loaded assembly named `netstandard` when there is one. */
  function DefaultReferences(runtime: Runtime): (r: seq<MetadataReference>)
    ensures |r| == 4 || |r| == 5
    ensures r[..4] == ReferencesTo([runtime.objectAssembly, runtime.consoleAssembly,
                                     runtime.gcSettingsAssembly, runtime.enumerableAssembly])
    ensures |r| == 5 <==> exists i :: 0 <= i < |runtime.loaded| && runtime.loaded[i].name == "netstandard"
    ensures |r| == 5 ==> exists i :: (0 <= i < |runtime.loaded| && r[4] == MetadataReference(runtime.loaded[i].location)
                                      && runtime.loaded[i].name == "netstandard"
                                      && forall j :: 0 <= j < i ==> runtime.loaded[j].name != "netstandard")
  {
    var framework := ReferencesTo([runtime.objectAssembly, runtime.consoleAssembly,
                                    runtime.gcSettingsAssembly, runtime.enumerableAssembly]);
    match FirstNamed(runtime.loaded, "netstandard")
    case None => framework
    case Some(netstandard) => framework + [MetadataReference(netstandard.location)]
  }

  // ---------------------------------------------------------------------------
  // AddPackageReferences
  // ---------------------------------------------------------------------------

  /** The file system once the packages are extracted: the directories that exist and,
      per directory, the `*.dll` files `Directory.GetFiles` lists. */
  datatype FileSystem = FileSystem(directories: set<Path>, dllFiles: map<Path, seq<Path>>)

  function DllFiles(fs: FileSystem, directory: Path): seq<Path>
  {
    if directory in fs.dllFiles then fs.dllFiles[directory] else []
  }

  /** The framework folders probed under `lib`, in order of preference. */
  const TargetFrameworks: seq<string> := ["netstandard2.1", "netcoreapp3.1", "net5.0", "net6.0"]

  /** The index, from `from` on, of the first framework whose folder exists under `libDir`. */
  function FrameworkDirectory(fs: FileSystem, libDir: Path, from: nat): (r: Option<nat>)
    requires from <= |TargetFrameworks|
    ensures r.Some? ==> (from <= r.value < |TargetFrameworks|
                         && libDir + [TargetFrameworks[r.value]] in fs.directories
                         && forall t :: from <= t < r.value ==> libDir + [TargetFrameworks[t]] !in fs.directories)
    ensures r.None? ==> forall t :: from <= t < |TargetFrameworks| ==> libDir + [TargetFrameworks[t]] !in fs.directories
    decreases |TargetFrameworks| - from
  {
    if from == |TargetFrameworks| then None
    else if libDir + [TargetFrameworks[from]] in fs.directories then Some(from)
    else FrameworkDirectory(fs, libDir, from + 1)
  }

  /** What `AddPackageReferences` appends for one package directory. */
  function PackageReferences(packageDirectory: Path, fs: FileSystem): (r: seq<MetadataReference>)
    ensures r != [] ==> packageDirectory + ["lib"] in fs.directories
    ensures r != [] ==> exists t :: (0 <= t < |TargetFrameworks|
                                     && packageDirectory + ["lib"] + [TargetFrameworks[t]] in fs.directories
                                     && r == ReferencesTo(DllFiles(fs, packageDirectory + ["lib"] + [TargetFrameworks[t]])))
  {
    var libDir := packageDirectory + ["lib"];
    if libDir !in fs.directories then []
    else match FrameworkDirectory(fs, libDir, 0)
      case None => []
      case Some(t) => ReferencesTo(DllFiles(fs, libDir + [TargetFrameworks[t]]))
  }

  /** Only the first existing framework folder, in order of preference, contributes: all
      of its DLLs, and nothing from the folders after it. Without `lib`, or with none of
      the folders, nothing is added. */
  lemma PackageReferencesProbe(packageDirectory: Path, fs: FileSystem)
    ensures var libDir := packageDirectory + ["lib"];
      var r := PackageReferences(packageDirectory, fs);
      (libDir !in fs.directories ==> r == [])
      && ((forall t :: 0 <= t < |TargetFrameworks| ==> libDir + [TargetFrameworks[t]] !in fs.directories) ==> r == [])
      && (forall t ::
            (0 <= t < |TargetFrameworks| && libDir in fs.directories
             && libDir + [TargetFrameworks[t]] in fs.directories
             && (forall u :: 0 <= u < t ==> libDir + [TargetFrameworks[u]] !in fs.directories))
            ==> r == ReferencesTo(DllFiles(fs, libDir + [TargetFrameworks[t]])))
  {
  }

  /** `AddPackageReferences`: appends the references of one package and leaves the
      entries already in the list unchanged. */
  method AddPackageReferences(packageDirectory: Path, fs: FileSystem, metadataReferences: ReferenceList)
    modifies metadataReferences
    ensures metadataReferences.items == old(metadataReferences.items) + PackageReferences(packageDirectory, fs)
  {
    var libDir := packageDirectory + ["lib"];
    if libDir !in fs.directories {
      return;
    }
    for t := 0 to |TargetFrameworks|
      invariant metadataReferences.items == old(metadataReferences.items)
      invariant FrameworkDirectory(fs, libDir, 0) == FrameworkDirectory(fs, libDir, t)
    {
      var tfDir := libDir + [TargetFrameworks[t]];
      if tfDir in fs.directories {
        var dlls := DllFiles(fs, tfDir);
        for d := 0 to |dlls|
          invariant metadataReferences.items == old(metadataReferences.items) + ReferencesTo(dlls[..d])
        {
          metadataReferences.Add(MetadataReference(dlls[d]));
          assert dlls[..d + 1] == dlls[..d] + [dlls[d]];
          ReferencesToAppend(dlls[..d], [dlls[d]]);
        }
        assert dlls[..|dlls|] == dlls;
        break;
      }
    }
  }

  // ---------------------------------------------------------------------------
  // The NuGet step of AddNuGetReferencesAsync
  // ---------------------------------------------------------------------------

  /** What the NuGet step depends on: the repositories in order, the global packages
      folder, the file system once packages are extracted, and the resolver, as a function
      of the root id, the discovered set and the package sources of its context (`None`
      when it throws). */
  datatype NuGetEnvironment = NuGetEnvironment(
    repositories: seq<Repository>,
    globalPackagesFolder: Path,
    fileSystem: FileSystem,
    resolve: (string, Entries, seq<PackageSource>) -> Option<seq<PackageIdentity>>)

  /** The package sources of the repositories, in order: what the resolver context is
      meant to receive. */
  function PackageSources(repositories: seq<Repository>): seq<PackageSource>
  {
    seq(|repositories|, i requires 0 <= i < |repositories| => repositories[i].source)
  }

  /** The exceptions that end the NuGet step. */
  datatype PackageError =
    | SourcesCastFailed                           // `(IEnumerable<PackageSource>)repositories` throws
    | ResolverFailed(packageId: string)           // `PackageResolver.Resolve` throws
    | NoSingleMatch(package: PackageIdentity)     // `Single` finds no match
    | NoDownloadRepository(info: DependencyInfo) // `FirstOrDefault` gives `null`

  /** One package the step extracts: the package, the index of the repository asked to
      download it, and the directory it is extracted to. */
  datatype Extraction = Extraction(package: DependencyInfo, repository: nat, directory: Path)

  /** What a run of the step does: the extractions and the references, in order, and the
      exception that ended it, if any. */
  datatype Plan = Plan(extractions: seq<Extraction>, references: seq<MetadataReference>, error: Option<PackageError>)

  /** One run followed by another. */
  function Then(a: Plan, b: Plan): Plan
  {
    Plan(a.extractions + b.extractions, a.references + b.references, b.error)
  }

  /** The predicate `x => x.Id == p.Id && x.Version == p.Version`: the ids are compared
      exactly, the versions as `VersionComparer.Default` compares them. */
  predicate SameResolved(x: PackageIdentity, p: PackageIdentity)
  {
    x.id == p.id && VersionKey(x.version) == VersionKey(p.version)
  }

  /** `availablePackages.Single(x => x.Id == p.Id && x.Version == p.Version)`: the match,
      when there is one, is the same package under the identity comparer, with the id
      spelled as asked. */
  function Single(available: Entries, package: PackageIdentity): (r: Option<DependencyInfo>)
    ensures r.Some? ==> r.value.identity.id == package.id && KeyOf(r.value.identity) == KeyOf(package)
  {
    var key := KeyOf(package);
    if key in available && SameResolved(available[key].identity, package) then Some(available[key]) else None
  }

  /** The entries the predicate of `Single` accepts. */
  function Matches(available: Entries, package: PackageIdentity): set<DependencyInfo>
  {
    set k | k in available && SameResolved(available[k].identity, package) :: available[k]
  }

  /** In a set keyed by package, `Single` finds the one match when there is one, and
      otherwise there is none: it never meets two. */
  lemma SingleIsTheMatch(available: Entries, package: PackageIdentity)
    requires Keyed(available)
    ensures Single(available, package).Some? ==> Matches(available, package) == {Single(available, package).value}
    ensures Single(available, package).None? ==> Matches(available, package) == {}
  {
    var key := KeyOf(package);
    forall x | x in Matches(available, package)
      ensures key in available && x == available[key]
    {
      var k :| k in available && SameResolved(available[k].identity, package) && available[k] == x;
      assert KeyOf(available[k].identity) == k;
    }
    if Single(available, package).Some? {
      assert available[key] in Matches(available, package);
    }
  }

  /** The repository the loop downloads from: the first, from `from` on, whose source is
      local exactly when the package's source is. */
  function DownloadRepository(repositories: seq<Repository>, isLocal: bool, from: nat): (r: Option<nat>)
    requires from <= |repositories|
    ensures r.Some? ==> (from <= r.value < |repositories| && repositories[r.value].source.isLocal == isLocal
                         && forall j :: from <= j < r.value ==> repositories[j].source.isLocal != isLocal)
    ensures r.None? <==> forall j :: from <= j < |repositories| ==> repositories[j].source.isLocal != isLocal
    decreases |repositories| - from
  {
    if from == |repositories| then None
    else if repositories[from].source.isLocal == isLocal then Some(from)
    else DownloadRepository(repositories, isLocal, from + 1)
  }

  /** `Path.Combine(globalPackagesFolder, id.ToLowerInvariant(), version.ToNormalizedString())`:
      a directory two levels below the global packages folder. */
  function PackageDirectory(globalPackagesFolder: Path, package: DependencyInfo): (r: Path)
    ensures globalPackagesFolder <= r && |r| == |globalPackagesFolder| + 2
  {
    globalPackagesFolder + [ToLower(package.identity.id), NormalizedString(package.identity.version)]
  }

  /** Two packages share a directory exactly when their ids agree without regard to case
      and their versions agree, release label included. */
  lemma PackageDirectoryPerPackage(globalPackagesFolder: Path, a: DependencyInfo, b: DependencyInfo)
    ensures PackageDirectory(globalPackagesFolder, a) == PackageDirectory(globalPackagesFolder, b)
        <==> ToLower(a.identity.id) == ToLower(b.identity.id) && a.identity.version == b.identity.version
  {
    var n := |globalPackagesFolder|;
    if PackageDirectory(globalPackagesFolder, a) == PackageDirectory(globalPackagesFolder, b) {
      assert PackageDirectory(globalPackagesFolder, a)[n] == PackageDirectory(globalPackagesFolder, b)[n];
      assert PackageDirectory(globalPackagesFolder, a)[n + 1] == PackageDirectory(globalPackagesFolder, b)[n + 1];
      NormalizedStringInjective(a.identity.version, b.identity.version);
    }
  }

  /** The references the given extractions contribute, in order. */
  function ExtractedReferences(extractions: seq<Extraction>, fs: FileSystem): seq<MetadataReference>
  {
    if extractions == [] then []
    else
      ExtractedReferences(extractions[..|extractions| - 1], fs)
      + PackageReferences(extractions[|extractions| - 1].directory, fs)
  }

  lemma {:induction false} ExtractedReferencesAppend(a: seq<Extraction>, b: seq<Extraction>, fs: FileSystem)
    ensures ExtractedReferences(a + b, fs) == ExtractedReferences(a, fs) + ExtractedReferences(b, fs)
    decreases |b|
  {
    if b == [] {
      assert a + b == a;
    } else {
      var init := b[..|b| - 1];
      var last := PackageReferences(b[|b| - 1].directory, fs);
      assert (a + b)[..|a + b| - 1] == a + init && (a + b)[|a + b| - 1] == b[|b| - 1];
      assert ExtractedReferences(a + b, fs) == ExtractedReferences(a + init, fs) + last;
      ExtractedReferencesAppend(a, init, fs);
      AppendAssociative(ExtractedReferences(a, fs), ExtractedReferences(init, fs), last);
    }
  }

  /** The extraction every resolved package gets: downloaded from a repository of the same
      locality as its source, extracted to its own directory. */
  ghost predicate Extracts(e: Extraction, package: PackageIdentity, available: Entries, env: NuGetEnvironment)
  {
    Single(available, package) == Some(e.package)
    && DownloadRepository(env.repositories, e.package.source.isLocal, 0) == Some(e.repository)
    && e.directory == PackageDirectory(env.globalPackagesFolder, e.package)
  }

  /** The body of the inner loop, for one resolved package: at most one extraction, of
      that package, and the references of what it extracts. */
  function PlanPackage(package: PackageIdentity, available: Entries, env: NuGetEnvironment): (r: Plan)
    ensures |r.extractions| <= 1 && (r.error.None? <==> |r.extractions| == 1)
    ensures forall i :: 0 <= i < |r.extractions| ==>
      Extracts(r.extractions[i], package, available, env)
    ensures r.references == ExtractedReferences(r.extractions, env.fileSystem)
  {
    match Single(available, package)
    case None => Plan([], [], Some(NoSingleMatch(package)))
    case Some(info) =>
      match DownloadRepository(env.repositories, info.source.isLocal, 0)
      case None => Plan([], [], Some(NoDownloadRepository(info)))
      case Some(repository) =>
        var directory := PackageDirectory(env.globalPackagesFolder, info);
        var extraction := Extraction(info, repository, directory);
        assert [extraction][..0] == [];
        Plan([extraction], PackageReferences(directory, env.fileSystem), None)
  }

  /** Appending the run of the last resolved package to the run of the ones before it keeps
      each extraction at the position of its package. */
  lemma ExtractsInOrder(resolved: seq<PackageIdentity>, before: Plan, step: Plan, available: Entries, env: NuGetEnvironment)
    requires resolved != [] && |before.extractions| == |resolved| - 1 && |step.extractions| <= 1
    requires forall i :: 0 <= i < |before.extractions| ==>
      Extracts(before.extractions[i], resolved[..|resolved| - 1][i], available, env)
    requires forall i :: 0 <= i < |step.extractions| ==>
      Extracts(step.extractions[i], resolved[|resolved| - 1], available, env)
    ensures var all := before.extractions + step.extractions;
      forall i :: 0 <= i < |all| ==> Extracts(all[i], resolved[i], available, env)
  {
    var all := before.extractions + step.extractions;
    forall i | 0 <= i < |all| ensures Extracts(all[i], resolved[i], available, env) {
      if i < |before.extractions| {
        assert all[i] == before.extractions[i] && resolved[..|resolved| - 1][i] == resolved[i];
      } else {
        assert all[i] == step.extractions[i - |before.extractions|];
      }
    }
  }

  /** The inner loop over the resolved packages: each one in order, until one fails. The
      references are those of the extracted packages, in order. */
  function PlanPackages(resolved: seq<PackageIdentity>, available: Entries, env: NuGetEnvironment): (r: Plan)
    ensures |r.extractions| <= |resolved|
    ensures r.error.None? ==> |r.extractions| == |resolved|
    ensures r.references == ExtractedReferences(r.extractions, env.fileSystem)
    decreases |resolved|
  {
    if resolved == [] then Plan([], [], None)
    else
      var before := PlanPackages(resolved[..|resolved| - 1], available, env);
      if before.error.Some? then before
      else
        var step := PlanPackage(resolved[|resolved| - 1], available, env);
        ExtractedReferencesAppend(before.extractions, step.extractions, env.fileSystem);
        Then(before, step)
  }

  /** Each extraction of the inner loop is of the match of the resolved package at the
      same position. */
  lemma {:induction false} PlanPackagesInOrder(resolved: seq<PackageIdentity>, available: Entries, env: NuGetEnvironment)
    ensures var r := PlanPackages(resolved, available, env);
      forall i :: 0 <= i < |r.extractions| ==> Extracts(r.extractions[i], resolved[i], available, env)
    decreases |resolved|
  {
    if resolved != [] {
      var init := resolved[..|resolved| - 1];
      PlanPackagesInOrder(init, available, env);
      var before := PlanPackages(init, available, env);
      if before.error.None? {
        ExtractsInOrder(resolved, before, PlanPackage(resolved[|resolved| - 1], available, env), available, env);
      }
    }
  }

  /** The identity a root reference is walked from. */
  function RootIdentity(root: NuGetPackageReference): PackageIdentity
  {
    PackageIdentity(root.packageId, root.version)
  }

  /** The body of the outer loop, for one root: discovery into a fresh set, resolution
      against that set and the repositories' package sources, then the resolved packages.
      Its references are those of its extractions; a resolver that throws ends the run
      with nothing extracted. */
  function PlanRoot(root: NuGetPackageReference, env: NuGetEnvironment): (r: Plan)
    ensures r.references == ExtractedReferences(r.extractions, env.fileSystem)
    ensures var available := Discover(RootIdentity(root), env.repositories, map[]);
      env.resolve(root.packageId, available, PackageSources(env.repositories)).None? ==>
        r.extractions == [] && r.error == Some(ResolverFailed(root.packageId))
  {
    var available := Discover(RootIdentity(root), env.repositories, map[]);
    match env.resolve(root.packageId, available, PackageSources(env.repositories))
    case None => Plan([], [], Some(ResolverFailed(root.packageId)))
    case Some(resolved) => PlanPackages(resolved, available, env)
  }

  /** The inner loop goes through when every resolved package has its match among
      discovered packages. */
  lemma {:induction false} PlanPackagesSucceeds(resolved: seq<PackageIdentity>, available: Entries, env: NuGetEnvironment)
    requires SourcedFrom(available, env.repositories)
    requires forall i :: 0 <= i < |resolved| ==> Single(available, resolved[i]).Some?
    ensures PlanPackages(resolved, available, env).error.None?
    decreases |resolved|
  {
    if resolved != [] {
      var init := resolved[..|resolved| - 1];
      assert forall i :: 0 <= i < |init| ==> init[i] == resolved[i];
      PlanPackagesSucceeds(init, available, env);
      var package := resolved[|resolved| - 1];
      assert Single(available, resolved[|resolved| - 1]).Some?;
      DownloadRepositoryExists(env.repositories, available[KeyOf(package)]);
    }
  }

  /** A root's run extracts, in order, the match of each package the resolver returns, and
      goes through when every one has a match: with well-formed repositories the download
      repository is never missing. */
  lemma RootExtractsEveryResolvedPackage(root: NuGetPackageReference, env: NuGetEnvironment)
    requires WellFormedRegistry(env.repositories)
    ensures var available := Discover(RootIdentity(root), env.repositories, map[]);
      var resolved := env.resolve(root.packageId, available, PackageSources(env.repositories));
      var r := PlanRoot(root, env);
      resolved.Some? ==>
        |r.extractions| <= |resolved.value|
        && (forall i :: 0 <= i < |r.extractions| ==> Extracts(r.extractions[i], resolved.value[i], available, env))
        && ((forall i :: 0 <= i < |resolved.value| ==> Single(available, resolved.value[i]).Some?) ==>
              r.error.None? && |r.extractions| == |resolved.value|)
  {
    var available := Discover(RootIdentity(root), env.repositories, map[]);
    var resolved := env.resolve(root.packageId, available, PackageSources(env.repositories));
    DiscoverKeeps(RootIdentity(root), env.repositories, map[]);
    if resolved.Some? {
      PlanPackagesInOrder(resolved.value, available, env);
    }
    if resolved.Some? && forall i :: 0 <= i < |resolved.value| ==> Single(available, resolved.value[i]).Some? {
      PlanPackagesSucceeds(resolved.value, available, env);
    }
  }

  /** The resolver context as line 118 of CodeCompiler.cs builds it: the list of
      `SourceRepository` objects is cast to `IEnumerable<PackageSource>`. A
      `SourceRepository` is not a `PackageSource`, so the cast throws
      `InvalidCastException` whatever the list holds (`None`). */
  function SourcesAsWritten(repositories: seq<Repository>): Option<seq<PackageSource>>
  {
    None
  }

  /** The body of the outer loop as written: discovery, then the cast, which ends the run. */
  function PlanRootAsWritten(root: NuGetPackageReference, env: NuGetEnvironment): Plan
  {
    var available := Discover(RootIdentity(root), env.repositories, map[]);
    match SourcesAsWritten(env.repositories)
    case None => Plan([], [], Some(SourcesCastFailed))
    case Some(sources) =>
      match env.resolve(root.packageId, available, sources)
      case None => Plan([], [], Some(ResolverFailed(root.packageId)))
      case Some(resolved) => PlanPackages(resolved, available, env)
  }

  /** The outer loop as written. */
  function PlanRootsAsWritten(roots: seq<NuGetPackageReference>, env: NuGetEnvironment): Plan
    decreases |roots|
  {
    if roots == [] then Plan([], [], None)
    else
      var before := PlanRootsAsWritten(roots[..|roots| - 1], env);
      if before.error.Some? then before
      else Then(before, PlanRootAsWritten(roots[|roots| - 1], env))
  }

  /** As written, every non-empty list of roots fails at the cast after discovering the
      first root: nothing is resolved, extracted or referenced. */
  lemma {:induction false} CastFailsEveryRun(roots: seq<NuGetPackageReference>, env: NuGetEnvironment)
    requires roots != []
    ensures PlanRootsAsWritten(roots, env) == Plan([], [], Some(SourcesCastFailed))
    decreases |roots|
  {
    var init := roots[..|roots| - 1];
    if init == [] {
      assert PlanRootsAsWritten(init, env) == Plan([], [], None);
      assert PlanRootAsWritten(roots[|roots| - 1], env) == Plan([], [], Some(SourcesCastFailed));
      var noExtractions: seq<Extraction>, noReferences: seq<MetadataReference> := [], [];
      assert noExtractions + noExtractions == [] && noReferences + noReferences == [];
    } else {
      CastFailsEveryRun(init, env);
    }
  }

  /** So, as written, every list of roots whose intended run goes through fails. */
  lemma CastFailsWhereIntendedSucceeds(roots: seq<NuGetPackageReference>, env: NuGetEnvironment)
    requires roots != [] && PlanRoots(roots, env).error.None?
    ensures PlanRootsAsWritten(roots, env) != PlanRoots(roots, env)
  {
    CastFailsEveryRun(roots, env);
  }

  /** The outer loop over the root references: each one in order, until one fails. */
  function PlanRoots(roots: seq<NuGetPackageReference>, env: NuGetEnvironment): (r: Plan)
    ensures r.references == ExtractedReferences(r.extractions, env.fileSystem)
    decreases |roots|
  {
    if roots == [] then Plan([], [], None)
    else
      var before := PlanRoots(roots[..|roots| - 1], env);
      if before.error.Some? then before
      else
        var step := PlanRoot(roots[|roots| - 1], env);
        ExtractedReferencesAppend(before.extractions, step.extractions, env.fileSystem);
        Then(before, step)
  }

  /** Once a run fails, the later elements change nothing. */
  lemma {:induction false} PlanRootsStops(roots: seq<NuGetPackageReference>, n: nat, env: NuGetEnvironment)
    requires n <= |roots| && PlanRoots(roots[..n], env).error.Some?
    ensures PlanRoots(roots, env) == PlanRoots(roots[..n], env)
    decreases |roots| - n
  {
    if n < |roots| {
      assert roots[..|roots| - 1][..n] == roots[..n];
      PlanRootsStops(roots[..|roots| - 1], n, env);
    } else {
      assert roots[..n] == roots;
    }
  }

  lemma {:induction false} PlanPackagesStops(resolved: seq<PackageIdentity>, n: nat, available: Entries, env: NuGetEnvironment)
    requires n <= |resolved| && PlanPackages(resolved[..n], available, env).error.Some?
    ensures PlanPackages(resolved, available, env) == PlanPackages(resolved[..n], available, env)
    decreases |resolved| - n
  {
    if n < |resolved| {
      assert resolved[..|resolved| - 1][..n] == resolved[..n];
      PlanPackagesStops(resolved[..|resolved| - 1], n, available, env);
    } else {
      assert resolved[..n] == resolved;
    }
  }

  lemma AppendAssociative<T>(a: seq<T>, b: seq<T>, c: seq<T>)
    ensures (a + b) + c == a + (b + c)
  {
  }

  lemma ThenAssociative(x: Plan, y: Plan, z: Plan)
    ensures Then(Then(x, y), z) == Then(x, Then(y, z))
  {
    assert (x.extractions + y.extractions) + z.extractions == x.extractions + (y.extractions + z.extractions);
    assert (x.references + y.references) + z.references == x.references + (y.references + z.references);
  }

  lemma ThenNothing(x: Plan)
    requires x.error.None?
    ensures Then(x, Plan([], [], None)) == x
  {
    assert x.extractions + [] == x.extractions;
    assert x.references + [] == x.references;
  }

  /** The roots are handled independently: nothing found for one root is reused for the
      next, so a run over `a + b` is the run over `a` followed by the run over `b`. */
  lemma {:induction false} RootsAreIndependent(a: seq<NuGetPackageReference>, b: seq<NuGetPackageReference>, env: NuGetEnvironment)
    requires PlanRoots(a, env).error.None?
    ensures PlanRoots(a + b, env) == Then(PlanRoots(a, env), PlanRoots(b, env))
    decreases |b|
  {
    var first := PlanRoots(a, env);
    if b == [] {
      assert a + b == a;
      ThenNothing(first);
    } else {
      var init := b[..|b| - 1];
      var last := b[|b| - 1];
      assert (a + b)[..|a + b| - 1] == a + init;
      assert (a + b)[|a + b| - 1] == last;
      RootsAreIndependent(a, init, env);
      var middle := PlanRoots(init, env);
      if middle.error.None? {
        ThenAssociative(first, middle, PlanRoot(last, env));
      }
    }
  }

  /** In particular, a list of roots given twice has its packages extracted twice. */
  lemma RepeatedRootsExtractedTwice(roots: seq<NuGetPackageReference>, env: NuGetEnvironment)
    requires PlanRoots(roots, env).error.None?
    ensures PlanRoots(roots + roots, env).extractions
      == PlanRoots(roots, env).extractions + PlanRoots(roots, env).extractions
  {
    RootsAreIndependent(roots, roots, env);
  }

  /** For discovered packages the download repository always exists: some repository
      answered for the package, and it has the package's locality. */
  lemma DownloadRepositoryExists(repositories: seq<Repository>, info: DependencyInfo)
    requires info.source in Sources(repositories)
    ensures DownloadRepository(repositories, info.source.isLocal, 0).Some?
  {
    var i :| 0 <= i < |repositories| && repositories[i].source == info.source;
    assert repositories[i].source.isLocal == info.source.isLocal;
  }

  /** A run over discovered packages never fails for want of a download repository. */
  lemma {:induction false} NoMissingDownloadRepository(resolved: seq<PackageIdentity>, available: Entries, env: NuGetEnvironment)
    requires SourcedFrom(available, env.repositories)
    ensures !PlanPackages(resolved, available, env).error.Some?
      || !PlanPackages(resolved, available, env).error.value.NoDownloadRepository?
    decreases |resolved|
  {
    if resolved != [] {
      var before := PlanPackages(resolved[..|resolved| - 1], available, env);
      NoMissingDownloadRepository(resolved[..|resolved| - 1], available, env);
      if before.error.None? {
        var package := resolved[|resolved| - 1];
        var key := KeyOf(package);
        if key in available {
          DownloadRepositoryExists(env.repositories, available[key]);
        }
      }
    }
  }

  /** The same for a whole root: the only ways the step fails are the resolver and
      `Single`. */
  lemma RootNeverMissesDownloadRepository(root: NuGetPackageReference, env: NuGetEnvironment)
    requires WellFormedRegistry(env.repositories)
    ensures !PlanRoot(root, env).error.Some? || !PlanRoot(root, env).error.value.NoDownloadRepository?
  {
    var available := Discover(RootIdentity(root), env.repositories, map[]);
    DiscoverKeeps(RootIdentity(root), env.repositories, map[]);
    var resolved := env.resolve(root.packageId, available, PackageSources(env.repositories));
    NoMissingDownloadRepository(if resolved.Some? then resolved.value else [], available, env);
  }

  /** A package fails on a missing or ambiguous match, or on a missing download repository. */
  lemma PlanPackageFailure(package: PackageIdentity, available: Entries, env: NuGetEnvironment)
    ensures Single(available, package).None? ==>
      PlanPackage(package, available, env).error == Some(NoSingleMatch(package))
    ensures Single(available, package).Some? ==>
      var info := Single(available, package).value;
      DownloadRepository(env.repositories, info.source.isLocal, 0).None? ==>
        PlanPackage(package, available, env).error == Some(NoDownloadRepository(info))
  {
  }

  /** What the inner loop does with the package at position `p`, after the ones before it
      went through, when that package fails: the run keeps what it had and stops with the
      package's error. */
  lemma PlanPackagesHalts(resolved: seq<PackageIdentity>, p: nat, available: Entries, env: NuGetEnvironment,
                          extractions: seq<Extraction>, references: seq<MetadataReference>)
    requires p < |resolved| && PlanPackages(resolved[..p], available, env) == Plan(extractions, references, None)
    ensures var step := PlanPackage(resolved[p], available, env);
      step.error.Some? ==> PlanPackages(resolved, available, env) == Plan(extractions, references, step.error)
  {
    var step := PlanPackage(resolved[p], available, env);
    if step.error.Some? {
      var prefix := resolved[..p + 1];
      assert prefix[..|prefix| - 1] == resolved[..p] && prefix[|prefix| - 1] == resolved[p];
      assert PlanPackages(prefix, available, env) == Then(Plan(extractions, references, None), step);
      assert step.extractions == [] && step.references == [];
      assert extractions + [] == extractions && references + [] == references;
      PlanPackagesStops(resolved, p + 1, available, env);
    }
  }

  /** What the inner loop does with the package at position `p`, after the ones before it
      went through, when that package is found: it extracts the package and appends its
      references. */
  lemma PlanPackagesAdvance(resolved: seq<PackageIdentity>, p: nat, available: Entries, env: NuGetEnvironment,
                            extractions: seq<Extraction>, references: seq<MetadataReference>)
    requires p < |resolved| && PlanPackages(resolved[..p], available, env) == Plan(extractions, references, None)
    ensures Single(available, resolved[p]).Some? ==>
      var info := Single(available, resolved[p]).value;
      DownloadRepository(env.repositories, info.source.isLocal, 0).Some? ==>
        var directory := PackageDirectory(env.globalPackagesFolder, info);
        PlanPackages(resolved[..p + 1], available, env)
          == Plan(extractions + [Extraction(info, DownloadRepository(env.repositories, info.source.isLocal, 0).value, directory)],
                  references + PackageReferences(directory, env.fileSystem), None)
  {
    assert resolved[..p + 1][..p] == resolved[..p];
  }

  /** What the outer loop does with the root at position `n`, after the ones before it
      went through: it appends the root's run, and stops if that run failed. */
  lemma PlanRootsAdvance(roots: seq<NuGetPackageReference>, n: nat, env: NuGetEnvironment,
                         extractions: seq<Extraction>, references: seq<MetadataReference>)
    requires n < |roots| && PlanRoots(roots[..n], env) == Plan(extractions, references, None)
    ensures var step := PlanRoot(roots[n], env);
      step.error.Some? ==>
        PlanRoots(roots, env) == Plan(extractions + step.extractions, references + step.references, step.error)
    ensures var step := PlanRoot(roots[n], env);
      step.error.None? ==>
        PlanRoots(roots[..n + 1], env) == Plan(extractions + step.extractions, references + step.references, None)
  {
    assert roots[..n + 1][..n] == roots[..n];
    if PlanRoot(roots[n], env).error.Some? {
      PlanRootsStops(roots, n + 1, env);
    }
  }

  /** The inner loop of `AddNuGetReferencesAsync`, over the resolved packages of one root. */
  method AddResolvedPackages(resolved: seq<PackageIdentity>, available: Entries, env: NuGetEnvironment, metadataReferences: ReferenceList)
    returns (extractions: seq<Extraction>, error: Option<PackageError>)
    modifies metadataReferences
    ensures var plan := PlanPackages(resolved, available, env);
      extractions == plan.extractions && error == plan.error
      && metadataReferences.items == old(metadataReferences.items) + plan.references
  {
    extractions := [];
    error := None;
    ghost var references: seq<MetadataReference> := [];
    for p := 0 to |resolved|
      invariant PlanPackages(resolved[..p], available, env) == Plan(extractions, references, None)
      invariant metadataReferences.items == old(metadataReferences.items) + references
    {
      var package := Single(available, resolved[p]);
      if package.None? {
        error := Some(NoSingleMatch(resolved[p]));
        PlanPackageFailure(resolved[p], available, env);
        PlanPackagesHalts(resolved, p, available, env, extractions, references);
        return;
      }
      var info := package.value;
      var repository := DownloadRepository(env.repositories, info.source.isLocal, 0);
      if repository.None? {
        error := Some(NoDownloadRepository(info));
        PlanPackageFailure(resolved[p], available, env);
        PlanPackagesHalts(resolved, p, available, env, extractions, references);
        return;
      }
      PlanPackagesAdvance(resolved, p, available, env, extractions, references);
      var packageDirectory := PackageDirectory(env.globalPackagesFolder, info);
      extractions := extractions + [Extraction(info, repository.value, packageDirectory)];
      AddPackageReferences(packageDirectory, env.fileSystem, metadataReferences);
      ghost var added := PackageReferences(packageDirectory, env.fileSystem);
      AppendAssociative(old(metadataReferences.items), references, added);
      references := references + added;
    }
    assert resolved[..|resolved|] == resolved;
  }

  /** `AddNuGetReferencesAsync`: for each root in order, a fresh discovered set, the
      resolver, then the resolved packages; the first exception ends the step. */
  method AddNuGetReferences(nuGetReferences: seq<NuGetPackageReference>, metadataReferences: ReferenceList, env: NuGetEnvironment)
    returns (extractions: seq<Extraction>, error: Option<PackageError>)
    requires WellFormedRegistry(env.repositories)
    modifies metadataReferences
    ensures var plan := PlanRoots(nuGetReferences, env);
      extractions == plan.extractions && error == plan.error
      && metadataReferences.items == old(metadataReferences.items) + plan.references
  {
    extractions := [];
    error := None;
    ghost var references: seq<MetadataReference> := [];
    for n := 0 to |nuGetReferences|
      invariant PlanRoots(nuGetReferences[..n], env) == Plan(extractions, references, None)
      invariant metadataReferences.items == old(metadataReferences.items) + references
    {
      PlanRootsAdvance(nuGetReferences, n, env, extractions, references);
      var packageRef := nuGetReferences[n];
      var availablePackages := new DiscoveredSet();
      GetPackageDependencies(RootIdentity(packageRef), env.repositories, availablePackages);
      var resolvedPackages := env.resolve(packageRef.packageId, availablePackages.entries, PackageSources(env.repositories));
      if resolvedPackages.None? {
        error := Some(ResolverFailed(packageRef.packageId));
        assert extractions + [] == extractions && references + [] == references;
        return;
      }
      var rootExtractions, rootError := AddResolvedPackages(resolvedPackages.value, availablePackages.entries, env, metadataReferences);
      ghost var step := PlanRoot(packageRef, env);
      AppendAssociative(old(metadataReferences.items), references, step.references);
      extractions := extractions + rootExtractions;
      references := references + step.references;
      if rootError.Some? {
        error := rootError;
        return;
      }
    }
    assert nuGetReferences[..|nuGetReferences|] == nuGetReferences;
  }

  // ---------------------------------------------------------------------------
  // CompileAsync
  // ---------------------------------------------------------------------------

  /** The kinds of syntax node the gate distinguishes. */
  datatype SyntaxKind = GlobalStatement | TypeDeclaration | MemberDeclaration | OtherSyntax

  /** The tree has a `GlobalStatementSyntax` descendant. */
  predicate HasTopLevelStatements(nodes: seq<SyntaxKind>)
  {
    exists i :: 0 <= i < |nodes| && nodes[i] == GlobalStatement
  }

  /** A diagnostic `CompileAsync` reports: a warning promoted to an error, or an error. */
  predicate IsFailure(d: Diagnostic)
  {
    d.isWarningAsError || d.severity == Error
  }

  /** `Diagnostics.Where(d => d.IsWarningAsError || d.Severity == Error)`. */
  function FailureDiagnostics(diagnostics: seq<Diagnostic>): (r: seq<Diagnostic>)
    ensures |r| <= |diagnostics|
    ensures forall i :: 0 <= i < |r| ==> IsFailure(r[i])
    ensures forall d :: d in r <==> d in diagnostics && IsFailure(d)
  {
    if diagnostics == [] then []
    else if IsFailure(diagnostics[0]) then [diagnostics[0]] + FailureDiagnostics(diagnostics[1..])
    else FailureDiagnostics(diagnostics[1..])
  }

  /** The filter keeps the input order: it distributes over concatenation. */
  lemma {:induction false} FailureDiagnosticsAppend(a: seq<Diagnostic>, b: seq<Diagnostic>)
    ensures FailureDiagnostics(a + b) == FailureDiagnostics(a) + FailureDiagnostics(b)
    decreases |a|
  {
    if a == [] {
      assert a + b == b;
    } else {
      assert (a + b)[0] == a[0];
      assert (a + b)[1..] == a[1..] + b;
      FailureDiagnosticsAppend(a[1..], b);
    }
  }

  /** Only diagnostics are dropped that are not failures. */
  lemma {:induction false} FailureDiagnosticsKeepsFailures(diagnostics: seq<Diagnostic>)
    ensures (forall i :: 0 <= i < |diagnostics| ==> IsFailure(diagnostics[i]))
        <==> FailureDiagnostics(diagnostics) == diagnostics
    decreases |diagnostics|
  {
    if diagnostics != [] {
      FailureDiagnosticsKeepsFailures(diagnostics[1..]);
      if FailureDiagnostics(diagnostics) == diagnostics {
        forall i | 0 <= i < |diagnostics| ensures IsFailure(diagnostics[i]) {
          assert diagnostics[i] in FailureDiagnostics(diagnostics);
        }
      }
    }
  }

  /** What `Emit` reports. */
  datatype EmitResult = EmitResult(success: bool, diagnostics: seq<Diagnostic>)

  /** How `CompileAsync` ends. */
  datatype CompileOutcome =
    | TopLevelStatementsRejected                    // the `ArgumentException`
    | PackageFailure(error: PackageError, extractions: seq<Extraction>)
    | Emitted(references: seq<MetadataReference>, extractions: seq<Extraction>)
    | CompilationFailed(references: seq<MetadataReference>, extractions: seq<Extraction>, exception: CompilationException)

  /** The NuGet step runs only for a non-null, non-empty list of references. */
  function RequestedPlan(nuGetReferences: Option<seq<NuGetPackageReference>>, env: NuGetEnvironment): Plan
  {
    if nuGetReferences.Some? && nuGetReferences.value != [] then PlanRoots(nuGetReferences.value, env)
    else Plan([], [], None)
  }

  /** `CompileAsync`. */
  method CompileAsync(
    code: seq<SyntaxKind>,
    nuGetReferences: Option<seq<NuGetPackageReference>>,
    runtime: Runtime,
    env: NuGetEnvironment,
    emit: seq<MetadataReference> -> EmitResult)
    returns (outcome: CompileOutcome)
    requires WellFormedRegistry(env.repositories)
    ensures outcome.TopLevelStatementsRejected? <==> HasTopLevelStatements(code)
    ensures var plan := RequestedPlan(nuGetReferences, env);
      !HasTopLevelStatements(code) ==>
        (outcome.PackageFailure? <==> plan.error.Some?)
        && (outcome.PackageFailure? ==> outcome.error == plan.error.value && outcome.extractions == plan.extractions)
        && (!outcome.PackageFailure? ==>
              outcome.references == DefaultReferences(runtime) + plan.references
              && outcome.extractions == plan.extractions
              && (outcome.Emitted? <==> emit(outcome.references).success))
    ensures outcome.CompilationFailed? ==>
      outcome.exception == NewCompilationException(FailureDiagnostics(emit(outcome.references).diagnostics))
    ensures (nuGetReferences.None? || nuGetReferences.value == []) && (outcome.Emitted? || outcome.CompilationFailed?) ==>
      outcome.references == DefaultReferences(runtime) && outcome.extractions == []
  {
    var i := 0;
    while i < |code|
      invariant 0 <= i <= |code|
      invariant forall j :: 0 <= j < i ==> code[j] != GlobalStatement
    {
      if code[i] == GlobalStatement {
        return TopLevelStatementsRejected;
      }
      i := i + 1;
    }
    var references := new ReferenceList();
    references.AddRange(DefaultReferences(runtime));
    assert references.items == DefaultReferences(runtime);
    var extractions: seq<Extraction> := [];
    ghost var plan := RequestedPlan(nuGetReferences, env);
    if !(nuGetReferences.Some? && nuGetReferences.value != []) {
      assert references.items == DefaultReferences(runtime) + plan.references;
    } else {
      var error;
      extractions, error := AddNuGetReferences(nuGetReferences.value, references, env);
      if error.Some? {
        return PackageFailure(error.value, extractions);
      }
    }
    var result := emit(references.items);
    if !result.success {
      var errors := FailureDiagnostics(result.diagnostics);
      return CompilationFailed(references.items, extractions, NewCompilationException(errors));
    }
    return Emitted(references.items, extractions);
  }
}
