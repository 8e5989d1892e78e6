# RoslynCodeCompiler front end, modelled in Dafny

This project models the deterministic core of RoslynCodeCompiler, a library that compiles
C# source with Roslyn and pulls NuGet packages in as references. It covers three parts:

- **Runtime probing** (`GetNetVersion.cs`). The text printed by `dotnet --list-runtimes`
  becomes a sorted, duplicate-free list of `".NET <major>"` keys for majors 5 and up
  (module `NetVersion`, which also holds the `System.Version` parser `ParseVersion`). It
  needs the `Int32` parser, `String.Split`, `String.Join` and `Replace`, which are
  modelled in module `Text`.
- **The compiler front end** (`CodeCompiler.cs`).
  - The top-level-statement gate.
  - The default references, followed by the NuGet references.
  - The memoised depth-first walk `GetPackageDependenciesAsync` (module `Discovery`, over the
    registry and identities of module `Packages`).
  - The loop of `AddNuGetReferencesAsync`, which walks each root in a fresh set, resolves it,
    chooses a download repository and builds the package directory.
  - The framework-folder probe of `AddPackageReferences`.
  - The filter that picks the diagnostics to report (module `CodeCompiler`).
- **The failure report** (`CompilationException.cs`): its `Errors` and its message (module
  `CompilationFailure`).

Code that changes state is modelled imperatively, and each method is proved equal to a
specification function:

- the reference list is a class with a `seq` field;
- the discovered set is a class with a `map` field, keyed the way `PackageIdentityComparer.Default`
  compares: the id without regard to case, and the version with its release label without
  regard to case, as `VersionComparer.Default` does (`Packages.KeyOf`, `Packages.VersionKey`);
- `GetPackageDependencies` and `GetDependencies` are proved equal to the functions `Discover` and
  `DiscoverAll`;
- `AddNuGetReferences` and `AddResolvedPackages` are proved equal to `PlanRoots` and `PlanPackages`;
- `SortByMajor` is proved against `StrictlyAscending`.

Lemmas then state what these functions promise:

- the discovered set is closed under dependencies, including on cyclic graphs;
- the first repository that answers is the one kept;
- each root is handled independently;
- normalized version strings round-trip;
- the parsed keys are sorted numerically;
- the exception message carries the count and the messages.

Some consequences of the code as it stands:

- **Deduplication is per root.** `CodeCompiler.cs:96-99` creates a fresh `availablePackages`
  set for each root, so nothing discovered for one root is reused for the next.
  `RootsAreIndependent` and `RepeatedRootsExtractedTwice` state the consequence.
- **The version token is split on a single space.** `GetNetVersion.cs:69` splits on `' '`,
  so a double space yields an empty token 1 and the line is rejected
  (`DoubleSpaceRejected`).
- **The download repository goes by locality.** It is the first repository whose `IsLocal`
  equals that of the source that answered (`CodeCompiler.cs:127`), which is not
  necessarily the repository that answered.
- **`Single` compares ids exactly.** `x.Id == p.Id` on `CodeCompiler.cs:123` is an ordinal
  comparison, while the set it searches is keyed without regard to case; the version test
  ignores the case of the release label.
- **The resolver context cannot be built as written.** `CodeCompiler.cs:118` casts the
  list of repositories to a list of package sources, which fails for every list (see
  Findings). `PlanRootsAsWritten` models that loop; `PlanRoot`, `PlanRoots` and the methods
  proved against them pass the repositories' package sources instead.

## Model

| member | source | states |
|---|---|---|
| Text.DecimalRoundTrip | src/RoslynCodeCompiler/GetNetVersion.cs:77 | the digits printed for a major read back as that major |
| Text.ParseDecimal | src/RoslynCodeCompiler/GetNetVersion.cs:85 | `int.Parse` of a printed non-negative 32-bit number gives the number back |
| Text.ParseInt32 | src/RoslynCodeCompiler/GetNetVersion.cs:85 | a parsed value lies in the 32-bit range |
| Text.ParseInt32Meaning | src/RoslynCodeCompiler/GetNetVersion.cs:85 | `int.Parse` gives a value only for an optionally signed, non-empty digit string (up to surrounding white space), and that value is the string's; such a string gives its value when it is a 32-bit one and `None` (the exception) otherwise |
| Text.SplitParts | src/RoslynCodeCompiler/GetNetVersion.cs:69-70 | `Split` yields one part more than there are separators, and no part contains one |
| Text.JoinSplit | src/RoslynCodeCompiler/GetNetVersion.cs:69 | joining the parts of a split with the separator gives back the input |
| Text.Split | src/RoslynCodeCompiler/GetNetVersion.cs:69 | `Split` always yields at least one part, even for the empty string |
| Text.SplitAtSeparator | src/RoslynCodeCompiler/GetNetVersion.cs:69 | a separator divides the result: the parts of what precedes it followed by the parts of what follows it |
| Text.Join | src/RoslynCodeCompiler/CompilationException.cs:11 | joining no parts gives the empty string; otherwise the result starts with the first part |
| Text.SplitJoin | src/RoslynCodeCompiler/CompilationException.cs:11 | splitting a join of separator-free parts gives back the parts |
| Text.SplitLinesSpec | src/RoslynCodeCompiler/GetNetVersion.cs:22 | the lines are non-empty and free of CR/LF, and together they are the output with line breaks removed |
| Text.SplitLinesAtBreak | src/RoslynCodeCompiler/GetNetVersion.cs:22 | a CR or LF separates lines: the lines of the text around it are the lines before it followed by the lines after it |
| Text.SplitLinesOfLine | src/RoslynCodeCompiler/GetNetVersion.cs:22 | a non-empty text without CR or LF is exactly one line |
| Text.RemoveAll | src/RoslynCodeCompiler/GetNetVersion.cs:85 | removing the occurrences of a non-empty pattern never lengthens the string |
| Text.RemoveAllAbsent | src/RoslynCodeCompiler/GetNetVersion.cs:85 | a string in which the pattern occurs nowhere is returned unchanged |
| Text.ToLower | src/RoslynCodeCompiler/CodeCompiler.cs:140 | `ToLowerInvariant` keeps the length and lowers each character |
| NetVersion.ParseVersion | src/RoslynCodeCompiler/GetNetVersion.cs:74 | `new Version(text)` succeeds exactly when the text has 2 to 4 dot-separated parts and each is a non-negative 32-bit integer; the version's components are then the parts' values in order, build and revision being -1 where absent |
| NetVersion.VersionOfPartsMeaning | src/RoslynCodeCompiler/GetNetVersion.cs:74 | the same characterisation, over the parts of the text |
| NetVersion.ParseVersionText | src/RoslynCodeCompiler/GetNetVersion.cs:74 | every valid version printed by `Version.ToString` parses back to itself |
| NetVersion.RuntimeMajor | src/RoslynCodeCompiler/GetNetVersion.cs:61-74 | the major read from token 1 of a runtime-component line is a 32-bit value; both parsers share this step (lines 94-107) |
| NetVersion.TryParseMajorVersion | src/RoslynCodeCompiler/GetNetVersion.cs:89-115 | accepts exactly the runtime-component lines with at least two tokens whose token 1 is a version; the output is `".NET "` and that version's major |
| NetVersion.TryParseNet5PlusVersion | src/RoslynCodeCompiler/GetNetVersion.cs:56-81 | an accepted line is a runtime-component line with two tokens; its key is well formed, has a major of 5 or more, and is the major of token 1 |
| NetVersion.WellFormedLineAccepted | src/RoslynCodeCompiler/GetNetVersion.cs:61-78 | a line `<component> <version> <path>` of one of the three components yields `".NET <major>"`; the Net5Plus parser yields it only from major 5 up |
| NetVersion.OtherComponentRejected | src/RoslynCodeCompiler/GetNetVersion.cs:61-66 | a line that starts with none of the three component names is rejected by both parsers |
| NetVersion.SingleTokenRejected | src/RoslynCodeCompiler/GetNetVersion.cs:69-70 | a line without a space is rejected by both parsers |
| NetVersion.DoubleSpaceRejected | src/RoslynCodeCompiler/GetNetVersion.cs:69-70 | a double space after the component name empties token 1, and the line is rejected |
| NetVersion.UnparsableVersionRejected | src/RoslynCodeCompiler/GetNetVersion.cs:72-80 | a token 1 that is not a version makes both parsers return no key instead of failing |
| NetVersion.Net5PlusIsFilteredMajor | src/RoslynCodeCompiler/GetNetVersion.cs:56-115 | the two parsers agree wherever the Net5Plus one accepts; it rejects exactly the keys of `TryParseMajorVersion` with a major below 5 |
| NetVersion.NetKeyIsKey | src/RoslynCodeCompiler/GetNetVersion.cs:77-87 | `ExtractVersion` reads back the major of a formatted key |
| NetVersion.ExtractVersion | src/RoslynCodeCompiler/GetNetVersion.cs:85 | a number read back from a key is a 32-bit value |
| NetVersion.ExtractVersionMeaning | src/RoslynCodeCompiler/GetNetVersion.cs:85 | a number is read only when what remains after removing every `".NET "` is an optionally signed digit string, and it is that string's value; an out-of-range one gives `None` (the exception of `int.Parse`) |
| NetVersion.CompareVersions | src/RoslynCodeCompiler/GetNetVersion.cs:83-87 | on two keys, the comparison is -1, 0 or 1 by their numeric majors |
| NetVersion.NumericOrder | src/RoslynCodeCompiler/GetNetVersion.cs:83-87 | `".NET 9"` sorts before `".NET 10"` |
| NetVersion.AscendingDistinct | src/RoslynCodeCompiler/GetNetVersion.cs:33-34 | a strictly ascending list holds no repeated key |
| NetVersion.AscendingUnique | src/RoslynCodeCompiler/GetNetVersion.cs:33-34 | two strictly ascending lists with the same keys are equal, so the result does not depend on the set's enumeration order |
| NetVersion.KeysOf | src/RoslynCodeCompiler/GetNetVersion.cs:22-28 | every collected key is well formed with a major of 5 or more |
| NetVersion.KeysOfSound | src/RoslynCodeCompiler/GetNetVersion.cs:22-28 | every collected key is the key of some accepted line |
| NetVersion.KeysOfComplete | src/RoslynCodeCompiler/GetNetVersion.cs:22-28 | the key of every accepted line is collected |
| NetVersion.KeysOfGrows | src/RoslynCodeCompiler/GetNetVersion.cs:22-28 | one more line adds exactly the key of that line, if it is accepted, to the keys collected so far |
| NetVersion.CollectVersions | src/RoslynCodeCompiler/GetNetVersion.cs:22-28 | the hash set after the loop holds exactly `KeysOf` of the lines |
| NetVersion.KeysOfLines | src/RoslynCodeCompiler/GetNetVersion.cs:22-28 | a key is collected exactly when some line is accepted with that key |
| NetVersion.SameMajorCollapses | src/RoslynCodeCompiler/GetNetVersion.cs:24-27 | a NETCore.App and an AspNetCore.App line of one version collapse to one key |
| NetVersion.LeastKey | src/RoslynCodeCompiler/GetNetVersion.cs:34 | returns a key of the set whose major is no larger than any other's |
| NetVersion.SortByMajor | src/RoslynCodeCompiler/GetNetVersion.cs:33-34 | the list holds exactly the keys of the set, once each, strictly ascending by `CompareVersions` |
| NetVersion.GetInstalledNet5PlusVersions | src/RoslynCodeCompiler/GetNetVersion.cs:12-36 | no output gives an empty list; otherwise the list holds exactly the keys of the accepted lines, each of major 5 or more, ascending, without duplicates |
| CompilationFailure.Messages | src/RoslynCodeCompiler/CompilationException.cs:11 | one message per diagnostic, in input order |
| CompilationFailure.NewCompilationException | src/RoslynCodeCompiler/CompilationException.cs:9-14 | `Errors` is the given sequence unchanged, and the message starts with the header for its count |
| CompilationFailure.NoErrorsMessage | src/RoslynCodeCompiler/CompilationException.cs:10-11 | with no diagnostics the message is exactly `"Compilation failed with 0 errors:\n"` |
| CompilationFailure.CountInMessage | src/RoslynCodeCompiler/CompilationException.cs:10 | the number after `"Compilation failed with "` reads back as the number of diagnostics |
| CompilationFailure.MessagesRecoverable | src/RoslynCodeCompiler/CompilationException.cs:11 | after the header, splitting at line breaks gives every single-line message back in order, with no trailing separator |
| Packages.ResolvePackage | src/RoslynCodeCompiler/CodeCompiler.cs:172-180 | a repository answers exactly for the packages it lists, and the answer carries its source |
| Packages.VersionKey | src/RoslynCodeCompiler/CodeCompiler.cs:99 | the comparison key of a version keeps its four numbers and the length of its label: only the label's case is folded |
| Packages.FirstAnswering | src/RoslynCodeCompiler/CodeCompiler.cs:170-195 | the index found lists the package, and no repository before it does; with none found, no repository lists it |
| Packages.ParseNormalizedString | src/RoslynCodeCompiler/CodeCompiler.cs:141 | `ToNormalizedString` output reads back as the version |
| Packages.NormalizedStringInjective | src/RoslynCodeCompiler/CodeCompiler.cs:141 | two versions have the same normalized string exactly when they are equal |
| Discovery.Discover | src/RoslynCodeCompiler/CodeCompiler.cs:160-196 | the walk never removes a package from the set |
| Discovery.DiscoverAll | src/RoslynCodeCompiler/CodeCompiler.cs:183-192 | the walks over the dependencies never remove a package from the set |
| Discovery.DiscoverKeeps | src/RoslynCodeCompiler/CodeCompiler.cs:168-195 | the walk only adds: present entries keep their value, entries stay under their own key, and new entries come from a repository |
| Discovery.DiscoverAllKeeps | src/RoslynCodeCompiler/CodeCompiler.cs:183-192 | the same for the walks over a list of dependencies |
| Discovery.DiscoverAllStep | src/RoslynCodeCompiler/CodeCompiler.cs:183-192 | one more dependency means one more walk, from the set the earlier ones left |
| Discovery.DiscoverSkips | src/RoslynCodeCompiler/CodeCompiler.cs:168-195 | a package already present, or listed by no repository, leaves the set unchanged |
| Discovery.DiscoverSettles | src/RoslynCodeCompiler/CodeCompiler.cs:170-195 | after the walk the package is present, or no repository lists it |
| Discovery.DiscoverClosed | src/RoslynCodeCompiler/CodeCompiler.cs:182-192 | the walk keeps closed every entry that was closed, and the entries it adds are closed too |
| Discovery.DiscoverAllClosed | src/RoslynCodeCompiler/CodeCompiler.cs:183-192 | the walks over the dependencies keep closure and settle each dependency |
| Discovery.DiscoveryIsClosed | src/RoslynCodeCompiler/CodeCompiler.cs:99-108 | from an empty set, the root is present or unlisted, every dependency of every entry is present or unlisted, and entries are keyed and sourced from the repositories |
| Discovery.DiscoverWithin | src/RoslynCodeCompiler/CodeCompiler.cs:168-195 | the walk from a package of a set closed under the dependencies of kept listings adds only packages of that set |
| Discovery.DiscoverAllWithin | src/RoslynCodeCompiler/CodeCompiler.cs:183-192 | the same for the walks over dependencies whose packages lie in such a set |
| Discovery.DiscoveryIsMinimal | src/RoslynCodeCompiler/CodeCompiler.cs:99-108 | from an empty set, the walk discovers only packages of every set that holds the root and is closed under the dependencies of kept listings (an unrelated listed package is not discovered) |
| Discovery.FirstListing | src/RoslynCodeCompiler/CodeCompiler.cs:172-180 | a package has a kept listing exactly when some repository lists it |
| Discovery.FirstAnswerIsKept | src/RoslynCodeCompiler/CodeCompiler.cs:180-194 | a new package gets the answer of the first repository that lists it |
| Discovery.DiscoveredSet.constructor | src/RoslynCodeCompiler/CodeCompiler.cs:99 | the set starts empty |
| Discovery.DiscoveredSet.Contains | src/RoslynCodeCompiler/CodeCompiler.cs:168 | true exactly when some stored package is equal to the given one under the identity comparer |
| Discovery.DiscoveredSet.Add | src/RoslynCodeCompiler/CodeCompiler.cs:182 | adds the answer exactly when no equal identity is present, and otherwise changes nothing |
| Discovery.GetPackageDependencies | src/RoslynCodeCompiler/CodeCompiler.cs:160-196 | the set afterwards is `Discover` of the package from the set before |
| Discovery.GetDependencies | src/RoslynCodeCompiler/CodeCompiler.cs:183-192 | the set afterwards is `DiscoverAll` of the dependencies from the set before |
| CodeCompiler.ReferencesToAppend | src/RoslynCodeCompiler/CodeCompiler.cs:209-212 | referencing two groups of files one after the other references all of them, in order |
| CodeCompiler.ReferenceList.constructor | src/RoslynCodeCompiler/CodeCompiler.cs:31 | the list starts empty |
| CodeCompiler.ReferenceList.Add | src/RoslynCodeCompiler/CodeCompiler.cs:211 | appends one reference |
| CodeCompiler.ReferenceList.AddRange | src/RoslynCodeCompiler/CodeCompiler.cs:32 | appends the references in order |
| CodeCompiler.FirstNamed | src/RoslynCodeCompiler/CodeCompiler.cs:74-75 | finds the first assembly with the name, or reports that none has it |
| CodeCompiler.DefaultReferences | src/RoslynCodeCompiler/CodeCompiler.cs:62-82 | the four framework assemblies in order, then a fifth exactly when a `netstandard` assembly is loaded (the first one) |
| CodeCompiler.FrameworkDirectory | src/RoslynCodeCompiler/CodeCompiler.cs:203-215 | the first framework folder, in the fixed order, that exists under `lib` |
| CodeCompiler.PackageReferencesProbe | src/RoslynCodeCompiler/CodeCompiler.cs:198-216 | nothing without `lib` or without any framework folder; otherwise all DLLs of the first existing folder only |
| CodeCompiler.PackageReferences | src/RoslynCodeCompiler/CodeCompiler.cs:198-216 | a package contributes references only when it has a `lib` folder, and then exactly the DLLs of one existing framework folder |
| CodeCompiler.AddPackageReferences | src/RoslynCodeCompiler/CodeCompiler.cs:198-216 | the list afterwards is the old list followed by the package's references; entries already there are unchanged |
| CodeCompiler.SingleIsTheMatch | src/RoslynCodeCompiler/CodeCompiler.cs:123 | in the discovered set `Single` finds the one entry its predicate accepts when there is one, and never meets two |
| CodeCompiler.Single | src/RoslynCodeCompiler/CodeCompiler.cs:123 | a match has the id as asked and is the same package under the identity comparer |
| CodeCompiler.DownloadRepository | src/RoslynCodeCompiler/CodeCompiler.cs:127 | the first repository whose locality equals the package source's, or none exactly when none has it |
| CodeCompiler.PackageDirectory | src/RoslynCodeCompiler/CodeCompiler.cs:138-141 | the package directory lies two levels below the global packages folder |
| CodeCompiler.PackageDirectoryPerPackage | src/RoslynCodeCompiler/CodeCompiler.cs:138-141 | two packages share a directory exactly when their ids agree without regard to case and their versions agree, release label included |
| CodeCompiler.ExtractedReferencesAppend | src/RoslynCodeCompiler/CodeCompiler.cs:125-156 | the references of consecutive extractions are the concatenation of each one's references |
| CodeCompiler.PlanPackage | src/RoslynCodeCompiler/CodeCompiler.cs:123-155 | one package is extracted, from its download repository, unless it fails; its references are read from `PackageDirectory` |
| CodeCompiler.PlanPackages | src/RoslynCodeCompiler/CodeCompiler.cs:125-156 | at most one extraction per resolved package, all of them unless one fails; the references are those of the extractions, in order |
| CodeCompiler.PlanPackagesInOrder | src/RoslynCodeCompiler/CodeCompiler.cs:123-156 | the i-th extraction is of the match of the i-th resolved package, from its download repository; its references are read from `PackageDirectory` |
| CodeCompiler.PlanRoot | src/RoslynCodeCompiler/CodeCompiler.cs:97-156 | a root's references are those of its extractions; a resolver that throws ends the run with nothing extracted |
| CodeCompiler.PlanPackagesSucceeds | src/RoslynCodeCompiler/CodeCompiler.cs:123-129 | the inner loop goes through when every resolved package has its match among the discovered packages |
| CodeCompiler.RootExtractsEveryResolvedPackage | src/RoslynCodeCompiler/CodeCompiler.cs:96-156 | with the package sources passed to the resolver, a root extracts the match of each resolved package in order, and all of them when each has a match |
| CodeCompiler.CastFailsEveryRun | src/RoslynCodeCompiler/CodeCompiler.cs:110-119 | as written, every non-empty list of roots ends at the cast after the first discovery, with nothing extracted or referenced |
| CodeCompiler.CastFailsWhereIntendedSucceeds | src/RoslynCodeCompiler/CodeCompiler.cs:110-119 | as written, every list of roots whose intended run goes through fails |
| CodeCompiler.PlanRoots | src/RoslynCodeCompiler/CodeCompiler.cs:96-157 | the references added are those of the extractions, in order |
| CodeCompiler.PlanRootsStops | src/RoslynCodeCompiler/CodeCompiler.cs:96-157 | after a root fails, the later roots change nothing |
| CodeCompiler.PlanPackagesStops | src/RoslynCodeCompiler/CodeCompiler.cs:125-156 | after a package fails, the later packages change nothing |
| CodeCompiler.RootsAreIndependent | src/RoslynCodeCompiler/CodeCompiler.cs:96-99 | a run over `a + b` is the run over `a` followed by the run over `b`: no discovery is shared between roots |
| CodeCompiler.RepeatedRootsExtractedTwice | src/RoslynCodeCompiler/CodeCompiler.cs:96-99 | roots given twice have their packages extracted twice |
| CodeCompiler.DownloadRepositoryExists | src/RoslynCodeCompiler/CodeCompiler.cs:127 | a package answered by some repository always has a download repository |
| CodeCompiler.NoMissingDownloadRepository | src/RoslynCodeCompiler/CodeCompiler.cs:125-129 | over discovered packages, the inner loop never fails for want of a download repository |
| CodeCompiler.RootNeverMissesDownloadRepository | src/RoslynCodeCompiler/CodeCompiler.cs:96-129 | a root's run fails only in the resolver or in `Single` |
| CodeCompiler.AddResolvedPackages | src/RoslynCodeCompiler/CodeCompiler.cs:125-156 | returns the extractions and error of `PlanPackages`, and appends exactly its references |
| CodeCompiler.AddNuGetReferences | src/RoslynCodeCompiler/CodeCompiler.cs:84-158 | returns the extractions and error of `PlanRoots`, and appends exactly its references |
| CodeCompiler.FailureDiagnostics | src/RoslynCodeCompiler/CodeCompiler.cs:56-57 | keeps exactly the diagnostics that are warnings-as-errors or errors |
| CodeCompiler.FailureDiagnosticsAppend | src/RoslynCodeCompiler/CodeCompiler.cs:56-57 | the filter keeps the input order |
| CodeCompiler.FailureDiagnosticsKeepsFailures | src/RoslynCodeCompiler/CodeCompiler.cs:56-57 | the filter drops nothing exactly when every diagnostic is a failure |
| CodeCompiler.CompileAsync | src/RoslynCodeCompiler/CodeCompiler.cs:17-60 | rejected exactly when a top-level statement is present; otherwise a package failure exactly when the NuGet step fails; otherwise the references are the defaults then the NuGet references (only the defaults without packages), and a failed emit reports the filtered diagnostics |

## Left out

- Process I/O. `ExecuteDotnetListCommand` spawns `dotnet` with a 1000 ms wait. Its output is an input of `GetInstalledNet5PlusVersions`, and a command that could not run is `None`.
- Roslyn. `CSharpSyntaxTree.ParseText` is replaced by a sequence of node kinds. `CSharpCompilation.Create` and `Emit` are replaced by a function from the reference list to a success flag and the diagnostics. The compilation options and the output path are not modelled.
- The NuGet library.
  - `PackageResolver.Resolve` is a function of the root id, the discovered set and the package sources of its context; `None` stands for its exception.
  - `DependencyInfoResource.ResolvePackage` is a repository's listing.
  - Settings and the source provider are the `NuGetEnvironment`.
- Dependency-information failures. `GetResourceAsync<DependencyInfoResource>` can return `null` and `ResolvePackage` can throw (CodeCompiler.cs:172-178); in the model each repository answers from its listing, and neither failure is modelled.
- Download and extraction. `GetDownloadResourceResultAsync` and `PackageExtractor.ExtractPackageAsync` are I/O. The model records each extraction, and the file system is given as its state after extraction. A download that fails, or a repository without a download resource, is not modelled.
- Async and cancellation. Every `await` is sequential, and no cancellation token is ever signalled.
- Reflection. `GetDefaultReferences` reads the assembly locations and the loaded assemblies from a `Runtime` value.
- `Text.ParseInt32`: culture data beyond the invariant culture is not modelled, nor is the trailing-NUL tolerance of .NET number parsing.
- `NetVersion.TryParseNet5PlusVersion`: `StartsWith` (GetNetVersion.cs:61-63) is culture-sensitive; the model uses an ordinal prefix test.
- `NetVersion.TryParseMajorVersion`: likewise, its `StartsWith` (GetNetVersion.cs:94-96) is modelled as an ordinal prefix test.
- `Text.ToLower`: only ASCII letters are folded. Non-ASCII case folding of `ToLowerInvariant`, of the identity comparer's id test and of the release-label test of `VersionComparer.Default` is not modelled.
- `Packages.NuGetVersion`: only normalized versions are modelled. A dependency range without a `MinVersion` (a null identity version) is not.
- `Discovery.GetPackageDependencies`: the recursive `foreach` over the dependencies is its own method, `GetDependencies`, so that the two mutually recursive methods share one termination measure.
- The external-build path, version selection and the `CodeTest` runner are not part of this model: they spawn processes and handle UI.
- `CodeCompiler.PlanRoot`: passes the repositories' package sources to the resolver, as evidently intended; the code as written fails at the cast on CodeCompiler.cs:118, which `PlanRootsAsWritten` models (see Findings).

## Findings

| source | as written | input that shows it | evidently intended | confidence | as-written member | corrected member |
|---|---|---|---|---|---|---|
| src/RoslynCodeCompiler/CodeCompiler.cs:118 | `(IEnumerable<PackageSource>)repositories` casts the `IEnumerable<SourceRepository>` of line 98; a `SourceRepository` is not a `PackageSource`, so the cast throws `InvalidCastException` after the first root is discovered, and `CompileAsync` fails before anything is resolved, extracted or referenced | any non-empty `nuGetReferences`, for instance one reference to a package every repository lists | the context receives the repositories' package sources, `repositories.Select(r => r.PackageSource)`, as line 127 reads them | high; not executed, follows from the declared types | CodeCompiler.CastFailsEveryRun | CodeCompiler.RootExtractsEveryResolvedPackage |
