/**
 * The NuGet entities the compiler front end handles (src/RoslynCodeCompiler/NuGetPackageReference.cs
 * and the NuGet library types used in src/RoslynCodeCompiler/CodeCompiler.cs).
 *
 * The NuGet client library itself is not part of this model: a package registry is an
 * ordered sequence of repositories, each of which answers dependency-information queries
 * for the packages it lists.
 */
module Packages {
  import opened Wrappers
  import opened Text

  /** A NuGet version in normalized form; a revision of 0 is the absent fourth component. */
  datatype NuGetVersion = NuGetVersion(major: nat, minor: nat, patch: nat, revision: nat, release: string)

  /** `NuGetPackageReference`: a package the caller asks for. */
  datatype NuGetPackageReference = NuGetPackageReference(packageId: string, version: NuGetVersion)

  /** `PackageIdentity`: an id as written and a version. */
  datatype PackageIdentity = PackageIdentity(id: string, version: NuGetVersion)

  /** What `VersionComparer.Default` compares: the numbers, and the release label without
      regard to case. Two versions are equal under it exactly when their keys are equal. */
  function VersionKey(v: NuGetVersion): (k: NuGetVersion)
    ensures k.major == v.major && k.minor == v.minor && k.patch == v.patch && k.revision == v.revision
    ensures |k.release| == |v.release|
  {
    v.(release := ToLower(v.release))
  }

  /** What `PackageIdentityComparer.Default` compares: the id without regard to case and
      the version as `VersionComparer.Default` does. Two identities are the same package
      exactly when their keys are equal. */
  datatype PackageKey = PackageKey(id: string, version: NuGetVersion)

  function KeyOf(p: PackageIdentity): PackageKey
  {
    PackageKey(ToLower(p.id), VersionKey(p.version))
  }

  /** A dependency edge: a package id and the minimum version of its range. */
  datatype Dependency = Dependency(id: string, minVersion: NuGetVersion)

  /** The identity a dependency is walked at: the id at the range's `MinVersion`. */
  function DependencyIdentity(d: Dependency): PackageIdentity
  {
    PackageIdentity(d.id, d.minVersion)
  }

  /** `PackageSource` of a repository: a name and whether it is a local folder. */
  datatype PackageSource = PackageSource(name: string, isLocal: bool)

  /** What a repository answers about one package for the `netstandard2.1` framework. */
  datatype Listing = Listing(identity: PackageIdentity, dependencies: seq<Dependency>)

  /** A `SourceRepository`: its source and the packages it can answer for, by key. */
  datatype Repository = Repository(source: PackageSource, listings: map<PackageKey, Listing>)

  /** `SourcePackageDependencyInfo`: a package, its dependencies and the source that
      answered for it. */
  datatype DependencyInfo = DependencyInfo(identity: PackageIdentity, dependencies: seq<Dependency>, source: PackageSource)

  /** A repository answers for the package that was asked for, not for another one. */
  ghost predicate WellFormedRegistry(repositories: seq<Repository>)
  {
    forall i, k :: 0 <= i < |repositories| && k in repositories[i].listings ==>
      KeyOf(repositories[i].listings[k].identity) == k
  }

  /** `DependencyInfoResource.ResolvePackage(package, netstandard2.1, …)`; `None` is `null`. */
  function ResolvePackage(repository: Repository, package: PackageIdentity): (r: Option<DependencyInfo>)
    ensures r.Some? <==> KeyOf(package) in repository.listings
    ensures r.Some? ==> r.value.source == repository.source
  {
    var key := KeyOf(package);
    if key in repository.listings then
      var listing := repository.listings[key];
      Some(DependencyInfo(listing.identity, listing.dependencies, repository.source))
    else None
  }

  /** Every key some repository lists. */
  function Universe(repositories: seq<Repository>): set<PackageKey>
  {
    set i, k | 0 <= i < |repositories| && k in repositories[i].listings :: k
  }

  /** No repository lists the package. */
  predicate Unavailable(repositories: seq<Repository>, key: PackageKey)
  {
    forall i :: 0 <= i < |repositories| ==> key !in repositories[i].listings
  }

  /** The index of the first repository, from `from` on, that answers for `key`. */
  function FirstAnswering(repositories: seq<Repository>, key: PackageKey, from: nat): (r: Option<nat>)
    requires from <= |repositories|
    ensures r.Some? ==> from <= r.value < |repositories| && key in repositories[r.value].listings
    ensures r.Some? ==> forall j :: from <= j < r.value ==> key !in repositories[j].listings
    ensures r.None? ==> forall j :: from <= j < |repositories| ==> key !in repositories[j].listings
    decreases |repositories| - from
  {
    if from == |repositories| then None
    else if key in repositories[from].listings then Some(from)
    else FirstAnswering(repositories, key, from + 1)
  }

  // ---------------------------------------------------------------------------
  // Normalized version strings
  // ---------------------------------------------------------------------------

  /** The numeric components `ToNormalizedString` prints. */
  function VersionNumbers(v: NuGetVersion): (parts: seq<string>)
    ensures |parts| == 3 || |parts| == 4
    ensures forall i :: 0 <= i < |parts| ==> AllDigits(parts[i])
  {
    [Decimal(v.major), Decimal(v.minor), Decimal(v.patch)]
    + (if v.revision > 0 then [Decimal(v.revision)] else [])
  }

  /** `NuGetVersion.ToNormalizedString()`: `major.minor.patch[.revision][-release]`. */
  function NormalizedString(v: NuGetVersion): string
  {
    Join(VersionNumbers(v), ".") + (if v.release == "" then "" else "-" + v.release)
  }

  /** Reads a normalized version string back. */
  function ParseNormalized(s: string): Option<NuGetVersion>
  {
    var numeric := Split(s, {'-'})[0];
    var release := if |numeric| < |s| then s[|numeric| + 1..] else "";
    var parts := Split(numeric, {'.'});
    if numeric <= s && (|parts| == 3 || |parts| == 4)
       && forall i :: 0 <= i < |parts| ==> AllDigits(parts[i]) then
      Some(NuGetVersion(
        DigitsValue(parts[0]), DigitsValue(parts[1]), DigitsValue(parts[2]),
        if |parts| == 4 then DigitsValue(parts[3]) else 0,
        release))
    else None
  }

  lemma DigitsFree(s: string, c: char)
    requires AllDigits(s) && !IsDigit(c)
    ensures FreeOf(s, {c})
  {
    forall i | 0 <= i < |s| ensures s[i] != c {
      assert IsDigit(s[i]);
    }
  }

  lemma {:induction false} PrefixOfSplit(s: string, c: char)
    ensures Split(s, {c})[0] <= s
    decreases |s|
  {
    if s != [] {
      PrefixOfSplit(s[1..], c);
    }
  }

  /** A normalized version string determines its version. */
  lemma ParseNormalizedString(v: NuGetVersion)
    ensures ParseNormalized(NormalizedString(v)) == Some(v)
  {
    var nums := VersionNumbers(v);
    var numeric := Join(nums, ".");
    var s := NormalizedString(v);
    forall i | 0 <= i < |nums| ensures FreeOf(nums[i], {'-'}) && FreeOf(nums[i], {'.'}) {
      DigitsFree(nums[i], '-');
      DigitsFree(nums[i], '.');
    }
    JoinFreeOf(nums, ".", '-');
    if v.release == "" {
      assert s == numeric;
      SplitFree(numeric, {'-'});
    } else {
      assert s == numeric + ['-'] + v.release;
      SplitAfterPart(numeric, '-', v.release);
      assert s[|numeric| + 1..] == v.release;
    }
    PrefixOfSplit(s, '-');
    SplitJoin(nums, '.');
    DecimalRoundTrip(v.major);
    DecimalRoundTrip(v.minor);
    DecimalRoundTrip(v.patch);
    if v.revision > 0 { DecimalRoundTrip(v.revision); }
  }

  /** Distinct versions have distinct normalized strings. */
  lemma NormalizedStringInjective(a: NuGetVersion, b: NuGetVersion)
    ensures NormalizedString(a) == NormalizedString(b) <==> a == b
  {
    ParseNormalizedString(a);
    ParseNormalizedString(b);
  }
}
